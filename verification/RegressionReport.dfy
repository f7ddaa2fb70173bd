/** `_regression_check_identity` and `_required_regression_checks`: reading a full report or a compact baseline
    into check identities and their observed statuses, collecting every problem on the way. */
module RegressionReport {
  import opened Prelude
  import opened Ordering
  import opened PythonText
  import opened Json

  const REPORT_SCHEMA_VERSION := 4
  const COMPACT_BASELINE_KIND := "mcp-conformance-regression-baseline-v1"
  const SHIPPING := "2025-06-18"
  const LEGACY := "2025-11-25"
  const MODERN := "2026-07-28"
  const REQUIRED_MODES: seq<string> := [SHIPPING, LEGACY, MODERN]
  const STDIO := "stdio"
  const HTTP := "official-http"
  const TRANSPORTS: seq<string> := [STDIO, HTTP]
  const CONFORMANCE_REPOSITORY := "modelcontextprotocol/conformance"
  const CONFORMANCE_GIT_REF := "49103de6ed70804e940637bf3e9e29e4a3f54e64"

  // the pinned scenarios of each mode, authentication included
  type Catalog = map<string, seq<string>>

  predicate CatalogOk(catalog: Catalog) {
    forall i | 0 <= i < |REQUIRED_MODES| :: REQUIRED_MODES[i] in catalog
  }

  datatype Identity = Identity(mode: string, transport: string, source: string, scenario: string, checkId: string) {
    function Key(): seq<string> {
      [mode, transport, source, scenario, checkId]
    }
  }

  datatype Status = PASS | FAIL | SKIP

  type Identities = map<Identity, set<Status>>

  datatype Bucket = PassingBucket | FailingBucket

  datatype Problem =
    | WrongSchema | NoVersionCheck | ModernDisabled
    | NoOfficialMetadata | WrongRepository | WrongRevision | NoAuthentication | NoCatalog
    | UnsupportedBaseline | WrongModes | WrongTransports | NoIdentities
    | NoBucket(bucket: Bucket) | MalformedIdentity(bucket: Bucket) | DuplicateIdentity(bucket: Bucket)
    | NoCases | MalformedCase | MalformedRequiredCase | DuplicateCase(mode: string, transport: string)
    | IncompleteCatalog(mode: string)
    | MissingCase(mode: string, transport: string)
    | NoChecks(mode: string, transport: string) | MalformedCheck(mode: string, transport: string)
    | MissingScenarios(mode: string, names: seq<string>) | UnexpectedScenarios(mode: string, names: seq<string>)

  datatype Reading = Reading(problems: seq<Problem>, identities: Identities)

  function Note(r: Reading, p: Problem): Reading {
    r.(problems := r.problems + [p])
  }

  function NoteIf(r: Reading, bad: bool, p: Problem): Reading {
    if bad then Note(r, p) else r
  }

  // identities.setdefault(id, set()).add(status)
  function Observe(ids: Identities, id: Identity, status: Status): Identities {
    ids[id := (if id in ids then ids[id] else {}) + {status}]
  }

  predicate KnownSource(j: Json) {
    j == Str("official") || j == Str("harness") || j == Str("supplemental")
  }

  predicate IsRequiredMode(j: Json) {
    j.Str? && j.text in REQUIRED_MODES
  }

  predicate IsTransport(j: Json) {
    j.Str? && j.text in TRANSPORTS
  }

  // ---------------------------------------------------------------- check identities

  // index of the last '#', or |s| when there is none
  function LastHash(s: string): (i: nat)
    ensures i <= |s|
    ensures i < |s| ==> s[i] == '#' && forall k | i < k < |s| :: s[k] != '#'
    ensures i == |s| ==> forall k | 0 <= k < |s| :: s[k] != '#'
  {
    if s == "" then 0
    else if s[|s| - 1] == '#' then |s| - 1
    else
      var i := LastHash(s[..|s| - 1]);
      if i == |s| - 1 then |s| else i
  }

  // The check name without the arrival number that the upstream runner appends.
  function StableName(name: string): string {
    var i := LastHash(name);
    if 0 < i < |name| && IsNumber(name[i + 1..]) then name[..i] else name
  }

  predicate NonEmptyText(j: Json) {
    j.Str? && j.text != ""
  }

  function CheckIdentity(mode: string, transport: string, check: Object): Option<Identity> {
    var source, scenario, name, checkId := Get(check, Source), Get(check, Scenario), Get(check, Name),
      Get(check, CheckId);
    if !KnownSource(source) then None
    else if !NonEmptyText(name) then None
    else if !scenario.Null? && !NonEmptyText(scenario) then None
    else if !checkId.Null? && !NonEmptyText(checkId) then None
    else
      Some(Identity(mode, transport, source.text,
                    if scenario.Str? then scenario.text else "",
                    if checkId.Str? then checkId.text else StableName(name.text)))
  }

  // What every identity of a full report satisfies; exactly what a compact record must satisfy.
  predicate WellFormed(id: Identity) {
    && id.mode in REQUIRED_MODES
    && id.transport in TRANSPORTS
    && KnownSource(Str(id.source))
    && id.checkId != ""
  }

  lemma CheckIdentityWellFormed(mode: string, transport: string, check: Object)
    requires mode in REQUIRED_MODES && transport in TRANSPORTS && CheckIdentity(mode, transport, check).Some?
    ensures WellFormed(CheckIdentity(mode, transport, check).value)
    ensures CheckIdentity(mode, transport, check).value.mode == mode
    ensures CheckIdentity(mode, transport, check).value.transport == transport
  {
  }

  function StatusOf(j: Json): Option<Status> {
    if j == Str("PASS") then Some(PASS)
    else if j == Str("FAIL") then Some(FAIL)
    else if j == Str("SKIP") then Some(SKIP)
    else None
  }

  // the identity and status of a well-formed check
  function ReadCheck(mode: string, transport: string, check: Json): Option<(Identity, Status)> {
    if !check.Obj? then None
    else
      var id, status, success := CheckIdentity(mode, transport, check.fields),
        StatusOf(Get(check.fields, Field.Status)), Get(check.fields, Success);
      if id.None? || status.None? || !success.Bool? || success.flag != !status.value.FAIL? then None
      else Some((id.value, status.value))
  }

  // ---------------------------------------------------------------- common header

  function Header(report: Object): Reading {
    var r0 := NoteIf(Reading([], map[]), !EqualsInt(Get(report, SchemaVersion), REPORT_SCHEMA_VERSION), WrongSchema);
    var version := Get(report, VersionCheck);
    var r1 := NoteIf(r0, !version.Obj? || Get(version.fields, Success) != Bool(true), NoVersionCheck);
    var r2 := NoteIf(r1, Get(report, ModernFeatureEnablement) != Bool(true), ModernDisabled);
    var official := Get(report, OfficialConformance);
    if !official.Obj? then Note(r2, NoOfficialMetadata)
    else
      var r3 := NoteIf(r2, Get(official.fields, Repository) != Str(CONFORMANCE_REPOSITORY), WrongRepository);
      var r4 := NoteIf(r3, Get(official.fields, GitRef) != Str(CONFORMANCE_GIT_REF), WrongRevision);
      var r5 := NoteIf(r4, Get(official.fields, AuthenticationIncluded) != Bool(true), NoAuthentication);
      NoteIf(r5, !Get(official.fields, Scenarios).Obj?, NoCatalog)
  }

  function SelectedScenarios(report: Object): Object {
    var official := Get(report, OfficialConformance);
    if official.Obj? && Get(official.fields, Scenarios).Obj? then Get(official.fields, Scenarios).fields else map[]
  }

  function CheckCatalog(r: Reading, report: Object, catalog: Catalog, mode: string): Reading
    requires mode in catalog
  {
    NoteIf(r, Get(SelectedScenarios(report), Named(mode)) != Strings(catalog[mode]), IncompleteCatalog(mode))
  }

  function ElementsOf(names: seq<string>): set<string> {
    set k | 0 <= k < |names| :: names[k]
  }

  function CompareScenarios(r: Reading, catalog: Catalog, mode: string, observed: set<string>): Reading
    requires mode in catalog
  {
    var expected := ElementsOf(catalog[mode]);
    var r1 := NoteIf(r, expected - observed != {}, MissingScenarios(mode, SortedStrings(expected - observed)));
    NoteIf(r1, observed - expected != {}, UnexpectedScenarios(mode, SortedStrings(observed - expected)))
  }

  // ---------------------------------------------------------------- compact baselines

  predicate RecordOk(record: Json) {
    && record.Obj?
    && IsRequiredMode(Get(record.fields, Mode))
    && IsTransport(Get(record.fields, Transport))
    && KnownSource(Get(record.fields, Source))
    && Get(record.fields, Scenario).Str?
    && NonEmptyText(Get(record.fields, CheckId))
  }

  function RecordIdentity(record: Json): Identity
    requires RecordOk(record)
  {
    var f := record.fields;
    Identity(Get(f, Mode).text, Get(f, Transport).text, Get(f, Source).text, Get(f, Scenario).text,
      Get(f, CheckId).text)
  }

  function StatusOfBucket(bucket: Bucket): Status {
    if bucket.PassingBucket? then PASS else FAIL
  }

  datatype Scan = Scan(reading: Reading, seen: set<Identity>)

  function ScanRecord(s: Scan, bucket: Bucket, record: Json): Scan {
    if !RecordOk(record) then s.(reading := Note(s.reading, MalformedIdentity(bucket)))
    else
      var id := RecordIdentity(record);
      if id in s.seen then s.(reading := Note(s.reading, DuplicateIdentity(bucket)))
      else
        Scan(s.reading.(identities := Observe(s.reading.identities, id, StatusOfBucket(bucket))), s.seen + {id})
  }

  function ScanRecords(r: Reading, bucket: Bucket, records: seq<Json>): Scan {
    if records == [] then Scan(r, {})
    else ScanRecord(ScanRecords(r, bucket, records[..|records| - 1]), bucket, records[|records| - 1])
  }

  function ReadBucket(r: Reading, bucket: Bucket, checks: Object): Reading {
    var records := Get(checks, if bucket.PassingBucket? then Passing else Failing);
    if !records.List? then Note(r, NoBucket(bucket)) else ScanRecords(r, bucket, records.items).reading
  }

  predicate HasCase(ids: Identities, mode: string, transport: string) {
    exists id | id in ids :: id.mode == mode && id.transport == transport
  }

  predicate Observes(id: Identity, mode: string) {
    id.mode == mode && id.transport == HTTP && (id.source == "official" || id.source == "harness")
  }

  function ObservedScenarios(ids: Identities, mode: string): set<string> {
    set id | id in ids && Observes(id, mode) :: id.scenario
  }

  function CheckCompactMode(r: Reading, report: Object, catalog: Catalog, mode: string): Reading
    requires mode in catalog
  {
    var r1 := CheckCatalog(r, report, catalog, mode);
    var r2 := NoteIf(r1, !HasCase(r.identities, mode, STDIO), MissingCase(mode, STDIO));
    var r3 := NoteIf(r2, !HasCase(r.identities, mode, HTTP), MissingCase(mode, HTTP));
    CompareScenarios(r3, catalog, mode, ObservedScenarios(r.identities, mode))
  }

  // the first n required modes
  function CheckCompactModes(r: Reading, report: Object, catalog: Catalog, n: nat): Reading
    requires CatalogOk(catalog) && n <= |REQUIRED_MODES|
  {
    if n == 0 then r
    else CheckCompactMode(CheckCompactModes(r, report, catalog, n - 1), report, catalog, REQUIRED_MODES[n - 1])
  }

  predicate TransportsOk(j: Json) {
    j == Strings([STDIO, HTTP]) || j == Strings([HTTP, STDIO])
  }

  function ReadCompact(report: Object, catalog: Catalog): Reading
    requires CatalogOk(catalog)
  {
    var r0 := Header(report);
    if Get(report, BaselineKind) != Str(COMPACT_BASELINE_KIND) then Note(r0, UnsupportedBaseline)
    else
      var r1 := NoteIf(r0, Get(report, RequiredModes) != Strings(REQUIRED_MODES), WrongModes);
      var r2 := NoteIf(r1, !TransportsOk(Get(report, Transports)), WrongTransports);
      var checks := Get(report, Checks);
      if !checks.Obj? then Note(r2, NoIdentities)
      else
        var r3 := ReadBucket(ReadBucket(r2, PassingBucket, checks.fields), FailingBucket, checks.fields);
        CheckCompactModes(r3, report, catalog, |REQUIRED_MODES|)
  }

  // ---------------------------------------------------------------- full reports

  type Cases = map<(string, string), Object>

  datatype CaseScan = CaseScan(reading: Reading, cases: Cases)

  function ScanCase(s: CaseScan, c: Json): CaseScan {
    if !c.Obj? then s.(reading := Note(s.reading, MalformedCase))
    else
      var mode, transport := Get(c.fields, Mode), Get(c.fields, Transport);
      if !IsRequiredMode(mode) then s
      else if !transport.Str? then s.(reading := Note(s.reading, MalformedRequiredCase))
      else if (mode.text, transport.text) in s.cases then
        s.(reading := Note(s.reading, DuplicateCase(mode.text, transport.text)))
      else s.(cases := s.cases[(mode.text, transport.text) := c.fields])
  }

  function ScanCases(r: Reading, cases: seq<Json>): CaseScan {
    if cases == [] then CaseScan(r, map[])
    else ScanCase(ScanCases(r, cases[..|cases| - 1]), cases[|cases| - 1])
  }

  datatype CheckScan = CheckScan(reading: Reading, observed: set<string>)

  function ScanCheck(s: CheckScan, mode: string, transport: string, check: Json): CheckScan {
    var c := ReadCheck(mode, transport, check);
    if c.None? then s.(reading := Note(s.reading, MalformedCheck(mode, transport)))
    else
      var (id, status) := c.value;
      CheckScan(s.reading.(identities := Observe(s.reading.identities, id, status)),
                if Observes(id, mode) then s.observed + {id.scenario} else s.observed)
  }

  function ScanChecks(r: Reading, mode: string, transport: string, checks: seq<Json>): CheckScan {
    if checks == [] then CheckScan(r, {})
    else ScanCheck(ScanChecks(r, mode, transport, checks[..|checks| - 1]), mode, transport, checks[|checks| - 1])
  }

  function ReadCase(r: Reading, catalog: Catalog, cases: Cases, mode: string, transport: string): Reading
    requires mode in catalog
  {
    if (mode, transport) !in cases then Note(r, MissingCase(mode, transport))
    else
      var checks := Get(cases[(mode, transport)], Checks);
      if !checks.List? || checks.items == [] then Note(r, NoChecks(mode, transport))
      else
        var s := ScanChecks(r, mode, transport, checks.items);
        if transport == HTTP then CompareScenarios(s.reading, catalog, mode, s.observed) else s.reading
  }

  function ReadMode(r: Reading, report: Object, catalog: Catalog, cases: Cases, mode: string): Reading
    requires mode in catalog
  {
    ReadCase(ReadCase(CheckCatalog(r, report, catalog, mode), catalog, cases, mode, STDIO), catalog, cases, mode, HTTP)
  }

  // the first n required modes
  function ReadModes(r: Reading, report: Object, catalog: Catalog, cases: Cases, n: nat): Reading
    requires CatalogOk(catalog) && n <= |REQUIRED_MODES|
  {
    if n == 0 then r
    else ReadMode(ReadModes(r, report, catalog, cases, n - 1), report, catalog, cases, REQUIRED_MODES[n - 1])
  }

  function ReadFull(report: Object, catalog: Catalog): Reading
    requires CatalogOk(catalog)
  {
    var list := Get(report, Field.Cases);
    var s := ScanCases(NoteIf(Header(report), !list.List?, NoCases), if list.List? then list.items else []);
    ReadModes(s.reading, report, catalog, s.cases, |REQUIRED_MODES|)
  }

  function Read(report: Object, catalog: Catalog): Reading
    requires CatalogOk(catalog)
  {
    if Get(report, BaselineKind) != Null then ReadCompact(report, catalog) else ReadFull(report, catalog)
  }
}
