# maintainerd decision logic in Dafny

maintainerd keeps a record of CNCF projects, their maintainers and the
maintainers' accounts on third-party services, starting with FOSSA. Most of it
is glue between a Google Sheets worksheet, a gorm/SQLite database and the FOSSA
REST API. This project models the decisions that glue makes, and proves what
they guarantee:

- **Worksheet normalisation** (`readSheetRows`, `Sheet` module). The header row
  and the data rows become one header-keyed map per data row. Cells are
  trimmed, short rows are padded with `""`, and blank `Project`/`Status` cells
  take the last non-blank value above them. The two copies, in `db/main.go` and
  `db/bootstrap.go`, are identical and are modelled by one method.
- **Enumerations** (`Model` module). `MaintainerStatus` and `Maturity` with
  `IsValid`, `Value` and `Scan`. `db/main.go:21-99` repeats `model/main.go`
  verbatim, so one model covers both.
- **FOSSA client decisions** (`Fossa` module). Lookup by name, the name-keyed
  team index, the user page loop, member e-mail extraction, and the error-code
  classification of invitations and team creation. Each HTTP exchange is a
  `Reply`: either no response, or a status code with a body that decoded or did
  not.
- **Team reconciliation** (`reconcileFOSSATeams`, `Reconcile` module). For each
  project with a FOSSA team, the code works out:
  - whom to invite;
  - whom to report as an unregistered team member;
  - which coverage message to log.
- **Seeding** (`BootstrapSQLite` and its helpers, `Seed` module). The database is
  a `Store` object with a set of services, a map of projects keyed by name and a
  set of service-team rows with at most one row per (project, service) pair. Seeding has three parts:
  - a row's project record takes its maturity from its parent, if one is found,
    or else from its own Status cell, and is not stored when that maturity is
    not valid;
  - FOSSA teams are matched to projects by name;
  - the `seed` flag can short-circuit the whole run.

Strings are `seq<char>`. Go's `strings.TrimSpace` and `strings.ToLower` are
modelled in the `Text` module, for the characters described under "Left out".

Where the code and its written description disagree, the model follows the code:

- Reconciliation lower-cases e-mails but does not trim them or drop empty ones.
- The invite and "unregistered" outputs are sets, because they come from
  iterating Go maps, which have no order.
- The "SIGNED UP" message compares the team size with the number of projects
  (see Findings).

## Model

| member | source | states |
|---|---|---|
| Text.TrimSpaceIsCore | db/main.go:601 | the trimmed string is a slice of the input with only white space cut off either side, and it neither starts nor ends with white space |
| Text.TrimSpaceIdempotent | db/main.go:626 | trimming a trimmed cell changes nothing |
| Text.ToLowerCanonical | db/main.go:305-313 | lower-casing is idempotent, leaves no upper-case letter, and two e-mails lower-case alike exactly when they differ only in letter case |
| Sheet.LastCol | db/main.go:604-613 | the column index found for a header is its last column (later `case` matches overwrite), or -1 exactly when no header has that name |
| Sheet.ReadSheetRows | db/main.go:586-652 | the running scan, with `lastProject`/`lastStatus` carried across rows, produces exactly the column-by-column reading `SheetRows`, including the two error cases; the copy at db/bootstrap.go:195-260 is the same loop |
| Sheet.TrimHeaders | db/main.go:599-602 | the header row becomes the trimmed header cells, in order |
| Sheet.FindColumns | db/main.go:605-613 | `projIdx`/`statIdx` are the last columns headed "Project" and "Status", or -1 |
| Sheet.RowToMap | db/main.go:620-646 | one data row's map: every header written in order, the Project/Status columns updated from a non-blank cell or else carried, and the new carried values returned |
| Sheet.ColumnsRowMeaning | db/main.go:622-646 | after the column writes, the keys are exactly the headers, and each holds the value of the last column with that header |
| Sheet.RowComplete | db/main.go:619-649 | the map the loop builds for row k equals the specified row map |
| Sheet.SheetRowsShape | db/main.go:591-596 | a failed fetch and an empty range are errors; otherwise there is one map per data row (header row excluded), keyed exactly by the trimmed header cells (db/bootstrap.go:200-205 alike) |
| Sheet.OtherColumnsCopied | db/main.go:642-645 | a column other than Project/Status holds its own trimmed cell, or "" past the end of a short row, with no carry-forward (db/bootstrap.go:233-236 and 251-252 alike) |
| Sheet.ForwardFill | db/main.go:630-640 | the Project/Status value of row k is the most recent non-blank cell of that column in rows 0..k, and "" only when all of them are blank (db/bootstrap.go:239-249 alike) |
| Sheet.LastNonBlankBlank | db/main.go:631-633 | a carried value stays "" only while every cell so far is blank |
| Sheet.LastNonBlankLatest | db/main.go:631-634 | a non-blank carried value is the cell of an earlier row with only blanks after it |
| Sheet.ValuesAreTrimmed | db/main.go:626-644 | every value in the output is already trimmed |
| Sheet.PropagateProjectStatusExample | db/main_test.go:26-73 | the unit test's sheet yields exactly the four expected maps (Project P1,P1,P1,P2; Status S1,S2,S2,S2) |
| Model.AsString | model/main.go:28-31 | the type assertion succeeds exactly on a string, and otherwise names the dynamic type |
| Model.MaintainerStatusValidity | model/main.go:19-25 | a status is valid exactly when it is "Active", "Emeritus" or "Retired" |
| Model.MaturityValidity | model/main.go:68-74 | a maturity is valid exactly when it is "Sandbox", "Incubating", "Graduated" or "Archived" |
| Model.MaintainerStatus.Value | model/main.go:36-41 | a valid status yields its string; any other value yields an invalid-status error |
| Model.Maturity.Value | model/main.go:61-66 | a valid maturity yields its string; any other value yields an invalid-maturity error |
| Model.MaintainerStatusVar.Scan | model/main.go:27-34 | any string is stored without validation; a non-string is an error and the variable keeps its value |
| Model.MaturityVar.Scan | model/main.go:43-50 | any string is stored without validation; a non-string is an error and the variable keeps its value |
| Model.StatusRoundTrip | model/main.go:27-41 | for a valid status, `Value` and then `Scan` restore the status |
| Model.MaturityRoundTrip | model/main.go:43-66 | for a valid maturity, `Value` and then `Scan` restore the maturity |
| Model.ScanUnknownMaturity | model/main.go:43-66 | an unknown maturity string scans without error, and only writing it back fails |
| Fossa.ReplyError | plugins/fossa/client.go:216-224 | a listing reply that is not accepted reports its error: transport failure, a non-200 status, or a body that did not decode |
| Fossa.FetchTeams | plugins/fossa/client.go:200-226 | the team list is returned exactly when the reply is a 200 whose body decoded |
| Fossa.GetTeamId | plugins/fossa/client.go:265-272 | the ID of the first team (in list order) with that name; not-found exactly when no team has the name |
| Fossa.ListedTeams | plugins/fossa/client.go:190 | a failed listing leaves FetchTeam an empty list, because the error is dropped |
| Fossa.FetchTeam | plugins/fossa/client.go:189-197 | the first listed team with that name; not-found exactly when none has it, a failed listing included |
| Fossa.FetchTeamsMap | plugins/fossa/client.go:275-287 | the listing's error is passed on; otherwise every listed name is a key, no other key exists, and each key holds the last team of that name |
| Fossa.IndexStep | plugins/fossa/client.go:283-285 | one map write extends the name index from the first k teams to the first k+1 |
| Fossa.IndexUnique | plugins/fossa/client.go:281-286 | the name index of a listing is unique |
| Fossa.IndexAgreesWithLookup | plugins/fossa/client.go:265-285 | when names are unique, the map entry of a name is the team a first-match lookup finds |
| Fossa.StopPage | plugins/fossa/client.go:105-109 | the stop position: all pages before it are full (at least 100 users), and the page at it is not |
| Fossa.FetchUsers | plugins/fossa/client.go:66-112 | pages 1, 2, ... are concatenated in order up to the first page with fewer than 100 users; the first page not accepted ends the call with its error and no users |
| Fossa.FetchTeamUserEmails | plugins/fossa/client.go:229-261 | a reply that is not accepted gives its error; otherwise the members' e-mails in reply order, and none when totalCount is not positive |
| Fossa.SendUserInvitation | plugins/fossa/client.go:141-186 | success exactly on 200; code 2011 exactly gives "invite already exists", 2001 "already a member", and any other decoded code a rejection |
| Fossa.CreateTeam | plugins/fossa/client.go:320-370 | 200/201 return the decoded team; code 2003 falls back to the first listed team of that name; other codes are rejections; an undecodable error body or a failed fallback reports the status |
| Reconcile.LowerCaseSet | db/main.go:305-313 | the set built from a list of e-mails is exactly their lower-cased forms |
| Reconcile.Missing | db/main.go:325-337 | walking one set and skipping members of the other yields exactly the set difference |
| Reconcile.DiffTeam | db/main.go:305-337 | one team's invites, unregistered members and coverage message are the specified diff |
| Reconcile.ReconcileFossaTeams | db/main.go:290-341 | every project with a FOSSA team gets a report: the fetch error, or the diff of its maintainers (none for a project missing from the map) against the team's e-mails |
| Reconcile.DiffIsSetDifference | db/main.go:325-337 | an address is invited exactly when it is a maintainer not on the team, and reported exactly when it is on the team but not a maintainer; no address is both |
| Reconcile.CaseInsensitiveMatch | db/main.go:305-313 | a maintainer and a team member whose e-mails differ only in letter case produce neither an invite nor a report |
| Reconcile.DiffIsLowerCase | db/main.go:307-312 | every invite and report is a lower-case address |
| Reconcile.DiffSymmetric | db/main.go:325-337 | swapping maintainers and team members swaps invites and reports |
| Reconcile.SignedUpComparesProjectCount | db/main.go:314-324 | "SIGNED UP" is chosen exactly when the team's size equals the number of projects |
| Reconcile.CoverageCounterexample | db/main.go:314 | a team that matches its only maintainer is not reported as signed up when there are two projects |
| Reconcile.IntendedCoverageSound | db/main.go:314-324 | with the team compared against this project's maintainers, a matching team is signed up, and with no invite pending "signed up" means no unregistered member |
| Seed.RecordChoice | db/main.go:526-553 | a row gets a parent exactly when its parent name is a stored project, taking that project's ID and maturity; otherwise its maturity is its own Status cell (db/bootstrap.go:134-161 alike) |
| Seed.InheritedMaturityValid | db/bootstrap.go:153-160 | a child of a stored project gets a valid maturity, whatever its own Status cell says, because every stored maturity is valid |
| Seed.InvalidMaturitySkipped | db/bootstrap.go:145-164 | a row with no stored parent whose Status cell is not a valid maturity stores nothing, because `Maturity.Value` (model/main.go:61-66) fails its INSERT and the transaction rolls back (db/bootstrap.go:186-188) |
| Seed.AddRowWellFormed | db/bootstrap.go:144-188 | one row's transaction keeps the project table well formed (every stored maturity valid included) and never changes an existing project |
| Seed.LoadedWellFormed | db/bootstrap.go:110-190 | loading all rows keeps names and IDs unique, IDs positive, parents stored and maturities valid, and leaves earlier projects untouched |
| Seed.LoadedKeepsName | db/bootstrap.go:162-164 | no later row removes a stored project name |
| Seed.CommittedRowStored | db/bootstrap.go:162-188 | after a row whose transaction commits and whose Status cell is a valid maturity, a project of its name is stored |
| Seed.MatchedTeams | db/bootstrap.go:277-293 | every team named like a stored project yields the row (project ID, service ID, team ID), and every row comes from such a team |
| Seed.UnmatchedTeamSkipped | db/bootstrap.go:279-282 | a team whose name is no stored project adds nothing |
| Seed.OneTeamPerProject | db/bootstrap.go:283-290 | a stored project is paired with at most one team |
| Seed.InsertedStep | db/bootstrap.go:279-291 | one team of the walk over the name index: FirstOrCreate against the rows inserted so far in the transaction decides the same as against the rows there were before, and adds the team's row exactly when its (project, service) pair has none |
| Seed.InsertedKeepsExisting | model/main.go:126-131 | FirstOrCreate on the `primaryKey` columns ProjectID and ServiceID keeps every stored service-team row, adds no second row for its pair whatever the RemoteID, and leaves at most one row per pair |
| Seed.LegacyFilterAgrees | db/main.go:357 | the older test on the possibly missing entry's ID selects the same teams as the `exists && ID != 0` test |
| Seed.Store.constructor | db/bootstrap.go:39-49 | a freshly migrated database is empty and well formed |
| Seed.Store.LoadServices | db/bootstrap.go:62-71 | the services are inserted by name in one transaction: all of them, or none |
| Seed.Store.StoreRow | db/bootstrap.go:134-188 | one row's parent lookup, record choice and FirstOrCreate by name, as the table function `AddRow` states: nothing is stored when the name is empty or taken, or when the record's maturity is not valid |
| Seed.Store.LoadMaintainersAndProjects | db/bootstrap.go:88-191 | a sheet error stops with the database unchanged; otherwise the projects are the rows loaded in order, and the table stays well formed, so only valid maturities are stored |
| Seed.Store.LoadFossaProjects | db/bootstrap.go:264-294 | a committed transaction adds the matched service-team rows whose (project, service) pair has no row yet, and a failed one adds nothing; the rows stay keyed by their pair |
| Seed.Store.LoadFossaProjectsLegacy | db/main.go:345-375 | the older copy with service ID 1: a failed listing adds nothing, otherwise the matched rows for the name index whose pair has no row yet |
| Seed.Store.Bootstrap | db/bootstrap.go:51-84 | without `seed` nothing changes; otherwise services, then projects, then service teams are loaded, stopping with the first failure's error; a service-team pair that already has a row keeps it |

## Left out

- HTTP and JSON are not modelled. Request construction, `json.Marshal` failures, headers and body reading are left out. A reply is given as "no response" or as a status plus a decoded body or a decoding failure.
- gorm and SQLite are not modelled: migrations, queries, `Preload` and joins. Whether each transaction commits is a parameter (`committed`).
- A `FirstOrCreate` with an empty project name is modelled as storing nothing. gorm would find some existing row or fail the table's name check.
- The maintainer, company and maintainer-project association rows written inside each row's transaction are not modelled. So are the `missingMaintainerFields` bookkeeping and all logging.
- The Google Sheets client is not modelled. The worksheet is given as cells already turned into strings by `fmt.Sprint`.
- Text.TrimSpace: covers the ASCII white space, U+0085 and U+00A0, not the other Unicode space characters Go also trims.
- Text.ToLower: lower-cases ASCII letters only.
- Fossa.FetchUsers: the page replies are a finite list. A run that asks for more pages than are given ends with `Unanswered`, which the real client would instead keep requesting.
- `FetchFirstPageOfUsers`, `FetchUserInvitations`, `GetTeam` and `NewClient` in plugins/fossa/client.go are not modelled. They are single HTTP calls without decision logic.
- Reconcile.ReconcileFossaTeams: the invitation call on each invite (`FetchUserInvitations`) is recorded as an invite decision. The order of the logged invites and reports is not modelled, because it comes from Go map iteration.
- Reconcile.ReconcileFossaTeams: the errors of the database helpers it ignores (`getProjectIDMaintainersMap`, `getServiceByName`, `getProjectServiceTeamMap`) are not modelled. The project and team maps are taken as inputs.
- Seed.Store.Bootstrap: `log.Fatalf` on a sheet error ends the process. The model returns `SheetFailed` with the services already inserted. `getProjectMaintainersMap` errors are not modelled.
- In db/main.go, `main` never runs the seeding functions (`loadData` is the constant `false`). The db/main.go copies are modelled anyway; main.go's flag handling and server start are not.
- The onboarding plugins (plugins/onboarding/server.go, plugins/onboarding/client.go) and db/store_impl.go are not part of this model. They are GitHub webhook handling and ORM queries.
- The repeated `FirstOrCreate` on the same project (db/main.go:554-559) is modelled once. The second call finds the row the first one stored.

## Findings

| source | as written | input that shows it | evidently intended | confidence | as-written member | corrected member |
|---|---|---|---|---|---|---|
| db/main.go:314 | the "SIGNED UP" message is chosen when the team's e-mail set has as many entries as there are projects in the database | one project among two, whose only maintainer `a@x.org` is the only team member: no invite, no unregistered member, yet "1 of 2 MAINTAINERS" is logged | compare the team with this project's maintainer set | not executed | Reconcile.CoverageCounterexample | Reconcile.IntendedCoverageSound |
