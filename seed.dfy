/**
 * The seeding path of `BootstrapSQLite` (db/bootstrap.go) and its older copy in
 * db/main.go: services are inserted, every spreadsheet row becomes a project
 * record (inheriting its maturity from a parent project when one is found),
 * and every FOSSA team named like a stored project becomes a service-team row.
 *
 * The database is a `Store` object holding the services, projects and service
 * teams as a set and maps. Whether each gorm transaction commits is a parameter.
 * The maintainer, company and association rows written in the same
 * transactions are not part of this model.
 */
module Seed {
  import opened Wrappers
  import Model
  import Sheet
  import Fossa

  const ParentProjectHdr: string := "Parent Project"
  const MaintainerFileRefHdr: string := "OWNERS/MAINTAINERS"
  const MailingListAddrHdr: string := "Mailing List Address"

  /** Both seeding paths pass a FOSSA service whose ID is 1. */
  const FossaServiceId: nat := 1

  const SeedServices: seq<string> := ["FOSSA", "Service Desk", "cncf.groups.io", "Snyk"]

  /** A `projects` row; `id` 0 is a record not yet stored, as gorm's zero ID. */
  datatype Project = Project(id: nat, name: string, parentId: Option<nat>, maturity: Model.Maturity,
                             maintainerRef: string, mailingList: string)

  datatype ServiceTeam = ServiceTeam(projectId: nat, serviceId: nat, remoteId: int)

  /** The zero `Project` value: what a failed parent lookup leaves behind. */
  const NoProject := Project(0, "", None, Model.Maturity(""), "", "")

  /** Reading a missing key of a Go map yields "". */
  function Field(row: Sheet.Row, h: string): string
  {
    if h in row then row[h] else ""
  }

  /** The parent lookup by name; an empty parent name or a name not in the table leaves the zero project. */
  function ParentOf(projects: map<string, Project>, row: Sheet.Row): Project
  {
    var parentName := Field(row, ParentProjectHdr);
    if parentName != "" && parentName in projects then projects[parentName] else NoProject
  }

  /**
   * The record a row asks for: with no parent (an empty parent name), the row's
   * own Status cell is the maturity, which is only checked when the record is
   * written; otherwise the parent's maturity and ID are taken.
   */
  function ProjectRecord(row: Sheet.Row, parent: Project): Project
  {
    var name := Field(row, Sheet.ProjectHdr);
    var ref := Field(row, MaintainerFileRefHdr);
    var list := Field(row, MailingListAddrHdr);
    if parent.name == "" then Project(0, name, None, Model.Maturity(Field(row, Sheet.StatusHdr)), ref, list)
    else Project(0, name, Some(parent.id), parent.maturity, ref, list)
  }

  /** The projects table keyed by its unique name, and the next auto-increment ID. */
  datatype Tables = Tables(projects: map<string, Project>, nextId: nat)

  /**
   * What the schema and the auto-increment keep true: no project is named ""
   * (the `name <> ''` check), names and IDs are unique, every ID is below the
   * next one and IDs start at 1, every parent ID names a stored project, and
   * every stored maturity is valid (`Maturity.Value` refuses to write any other).
   */
  ghost predicate WellFormed(t: Tables)
  {
    && 0 < t.nextId
    && "" !in t.projects
    && (forall n :: n in t.projects ==> t.projects[n].name == n && 0 < t.projects[n].id < t.nextId)
    && (forall a, b :: a in t.projects && b in t.projects && a != b ==> t.projects[a].id != t.projects[b].id)
    && (forall n :: n in t.projects && t.projects[n].parentId.Some? ==>
          exists m :: m in t.projects && t.projects[m].id == t.projects[n].parentId.value)
    && (forall n :: n in t.projects ==> t.projects[n].maturity.IsValid())
  }

  /**
   * One row's transaction. FirstOrCreate by name finds an existing project and
   * leaves it as it is; a record named "" is never stored (gorm drops the empty
   * condition and either finds some project or fails the check); a new record
   * whose maturity is not valid fails its INSERT in `Maturity.Value`, so the
   * transaction rolls back; a transaction that does not commit changes nothing.
   */
  function AddRow(t: Tables, row: Sheet.Row, committed: bool): Tables
  {
    var p := ProjectRecord(row, ParentOf(t.projects, row));
    if !committed || p.name == "" || p.name in t.projects || !p.maturity.IsValid() then t
    else Tables(t.projects[p.name := p.(id := t.nextId)], t.nextId + 1)
  }

  /** The tables after the rows, in order; `committed(i)` tells whether row i's transaction commits. */
  function Loaded(t: Tables, rows: seq<Sheet.Row>, committed: nat -> bool): Tables
    decreases |rows|
  {
    if rows == [] then t
    else AddRow(Loaded(t, rows[..|rows| - 1], committed), rows[|rows| - 1], committed(|rows| - 1))
  }

  /**
   * The record choice read against a well-formed table: the row gets a parent
   * exactly when its parent name is a stored project, and then takes that
   * project's ID and maturity; otherwise its maturity is its own Status cell.
   */
  lemma RecordChoice(t: Tables, row: Sheet.Row)
    requires WellFormed(t)
    ensures var p, parentName := ProjectRecord(row, ParentOf(t.projects, row)), Field(row, ParentProjectHdr);
      && p.name == Field(row, Sheet.ProjectHdr)
      && (p.parentId.Some? <==> parentName in t.projects)
      && (parentName in t.projects ==>
            p.parentId == Some(t.projects[parentName].id) && p.maturity == t.projects[parentName].maturity)
      && (parentName !in t.projects ==> p.maturity == Model.Maturity(Field(row, Sheet.StatusHdr)))
  {
  }

  /** A project with a stored parent inherits a valid maturity, whatever its own Status cell says. */
  lemma InheritedMaturityValid(t: Tables, row: Sheet.Row)
    requires WellFormed(t)
    requires Field(row, ParentProjectHdr) in t.projects
    ensures ProjectRecord(row, ParentOf(t.projects, row)).maturity.IsValid()
  {
    RecordChoice(t, row);
  }

  lemma AddRowWellFormed(t: Tables, row: Sheet.Row, committed: bool)
    requires WellFormed(t)
    ensures WellFormed(AddRow(t, row, committed))
    ensures forall n :: n in t.projects ==>
      n in AddRow(t, row, committed).projects && AddRow(t, row, committed).projects[n] == t.projects[n]
  {
    var parent := ParentOf(t.projects, row);
    var p := ProjectRecord(row, parent);
    if committed && p.name != "" && p.name !in t.projects && p.maturity.IsValid() {
      var t' := AddRow(t, row, committed);
      var q := p.(id := t.nextId);
      assert t'.projects == t.projects[p.name := q] && t'.nextId == t.nextId + 1;
      assert q.name == p.name && 0 < q.id;
      if q.parentId.Some? {
        var parentName := Field(row, ParentProjectHdr);
        assert parentName in t.projects && t.projects[parentName].id == q.parentId.value;
        assert t'.projects[parentName] == t.projects[parentName];
      }
      forall n | n in t'.projects && t'.projects[n].parentId.Some?
        ensures exists m :: m in t'.projects && t'.projects[m].id == t'.projects[n].parentId.value
      {
        if n != p.name {
          var m :| m in t.projects && t.projects[m].id == t.projects[n].parentId.value;
          assert t'.projects[m] == t.projects[m];
        }
      }
    }
  }

  /**
   * Loading rows keeps the tables well formed and never changes or removes a
   * project that was already stored.
   */
  lemma {:induction false} LoadedWellFormed(t: Tables, rows: seq<Sheet.Row>, committed: nat -> bool)
    requires WellFormed(t)
    ensures WellFormed(Loaded(t, rows, committed))
    ensures forall n :: n in t.projects ==>
      n in Loaded(t, rows, committed).projects && Loaded(t, rows, committed).projects[n] == t.projects[n]
    decreases |rows|
  {
    if rows != [] {
      var before := Loaded(t, rows[..|rows| - 1], committed);
      LoadedWellFormed(t, rows[..|rows| - 1], committed);
      AddRowWellFormed(before, rows[|rows| - 1], committed(|rows| - 1));
    }
  }

  /**
   * After a row whose transaction commits and whose Status cell is a valid
   * maturity, a project of that row's name is stored (new or earlier).
   */
  lemma CommittedRowStored(t: Tables, rows: seq<Sheet.Row>, committed: nat -> bool, k: nat)
    requires WellFormed(t)
    requires k < |rows| && committed(k) && Field(rows[k], Sheet.ProjectHdr) != ""
    requires Model.Maturity(Field(rows[k], Sheet.StatusHdr)).IsValid()
    ensures Field(rows[k], Sheet.ProjectHdr) in Loaded(t, rows, committed).projects
  {
    var front, back := rows[..k + 1], rows[k + 1..];
    var name := Field(rows[k], Sheet.ProjectHdr);
    var mid := Loaded(t, front, committed);
    assert name in mid.projects by {
      assert front[k] == rows[k];
      RowStoredAfter(t, front, committed);
    }
    assert name in Loaded(mid, back, ShiftedBy(committed, |front|)).projects by {
      LoadedKeepsName(mid, back, ShiftedBy(committed, |front|), name);
    }
    LoadedAppend(t, front, back, committed);
    assert front + back == rows;
  }

  /** No row removes a stored project name. */
  lemma {:induction false} LoadedKeepsName(t: Tables, rows: seq<Sheet.Row>, committed: nat -> bool, n: string)
    requires n in t.projects
    ensures n in Loaded(t, rows, committed).projects
    decreases |rows|
  {
    if rows != [] {
      LoadedKeepsName(t, rows[..|rows| - 1], committed, n);
    }
  }

  /** The last row of `rows`, when it commits with a valid Status cell, leaves its project name stored. */
  lemma RowStoredAfter(t: Tables, rows: seq<Sheet.Row>, committed: nat -> bool)
    requires WellFormed(t)
    requires |rows| > 0 && committed(|rows| - 1) && Field(rows[|rows| - 1], Sheet.ProjectHdr) != ""
    requires Model.Maturity(Field(rows[|rows| - 1], Sheet.StatusHdr)).IsValid()
    ensures Field(rows[|rows| - 1], Sheet.ProjectHdr) in Loaded(t, rows, committed).projects
  {
    var before := Loaded(t, rows[..|rows| - 1], committed);
    LoadedWellFormed(t, rows[..|rows| - 1], committed);
    RecordChoice(before, rows[|rows| - 1]);
  }

  /**
   * A row with no stored parent whose Status cell is not a valid maturity adds
   * nothing: its INSERT fails in `Maturity.Value` and the transaction rolls back.
   */
  lemma InvalidMaturitySkipped(t: Tables, row: Sheet.Row, committed: bool)
    requires Field(row, ParentProjectHdr) !in t.projects
    requires !Model.Maturity(Field(row, Sheet.StatusHdr)).IsValid()
    ensures AddRow(t, row, committed) == t
  {
  }

  /** Row i of a suffix that starts at `offset` is row offset + i of the whole sheet. */
  function ShiftedBy(committed: nat -> bool, offset: nat): nat -> bool
  {
    (i: nat) => committed(offset + i)
  }

  lemma {:induction false} LoadedAppend(t: Tables, front: seq<Sheet.Row>, back: seq<Sheet.Row>, committed: nat -> bool)
    ensures Loaded(t, front + back, committed) == Loaded(Loaded(t, front, committed), back, ShiftedBy(committed, |front|))
    decreases |back|
  {
    if back == [] {
      assert front + back == front;
    } else {
      var all := front + back;
      var back' := back[..|back| - 1];
      assert all[..|all| - 1] == front + back';
      assert all[|all| - 1] == back[|back| - 1];
      LoadedAppend(t, front, back', committed);
    }
  }

  /** The service-team rows for the teams among `names` whose name is a project with a non-zero ID. */
  function MatchedAmong(projects: map<string, Project>, svcId: nat, teams: map<string, Fossa.Team>, names: set<string>): set<ServiceTeam>
  {
    set n | n in names && n in teams && n in projects && projects[n].id != 0 ::
      ServiceTeam(projects[n].id, svcId, teams[n].id)
  }

  function Matched(projects: map<string, Project>, svcId: nat, teams: map<string, Fossa.Team>): set<ServiceTeam>
  {
    MatchedAmong(projects, svcId, teams, teams.Keys)
  }

  /**
   * Against a well-formed table, every team named like a stored project yields
   * a row pairing that project's ID, the service's ID and the team's ID, and
   * every row comes from such a team.
   */
  lemma MatchedTeams(t: Tables, svcId: nat, teams: map<string, Fossa.Team>)
    requires WellFormed(t)
    ensures forall n :: n in teams && n in t.projects ==>
      ServiceTeam(t.projects[n].id, svcId, teams[n].id) in Matched(t.projects, svcId, teams)
    ensures forall st :: st in Matched(t.projects, svcId, teams) ==>
      st.serviceId == svcId &&
      exists n :: n in teams && n in t.projects && t.projects[n].id == st.projectId && teams[n].id == st.remoteId
  {
  }

  /** A team whose name is not a stored project adds no row for any project. */
  lemma UnmatchedTeamSkipped(t: Tables, svcId: nat, teams: map<string, Fossa.Team>, n: string)
    requires WellFormed(t)
    requires n in teams && n !in t.projects
    ensures Matched(t.projects, svcId, teams) == Matched(t.projects, svcId, teams - {n})
  {
    var a, b := Matched(t.projects, svcId, teams), Matched(t.projects, svcId, teams - {n});
    forall st | st in a
      ensures st in b
    {
      var m :| m in teams && m in t.projects && t.projects[m].id != 0 && st == ServiceTeam(t.projects[m].id, svcId, teams[m].id);
      assert m != n;
      assert m in teams - {n};
    }
  }

  /** Since IDs are unique, a stored project is paired with at most one team. */
  lemma OneTeamPerProject(t: Tables, svcId: nat, teams: map<string, Fossa.Team>, a: ServiceTeam, b: ServiceTeam)
    requires WellFormed(t)
    requires a in Matched(t.projects, svcId, teams) && b in Matched(t.projects, svcId, teams)
    requires a.projectId == b.projectId
    ensures a == b
  {
    var m :| m in teams && m in t.projects && t.projects[m].id != 0 && a == ServiceTeam(t.projects[m].id, svcId, teams[m].id);
    var n :| n in teams && n in t.projects && t.projects[n].id != 0 && b == ServiceTeam(t.projects[n].id, svcId, teams[n].id);
    assert m == n;
  }

  /** Some row of `rows` already has the (project, service) pair of `st`: the columns tagged `primaryKey`. */
  predicate HasRowFor(rows: set<ServiceTeam>, st: ServiceTeam)
  {
    exists e :: e in rows && e.projectId == st.projectId && e.serviceId == st.serviceId
  }

  /** At most one service-team row per (project, service) pair. */
  ghost predicate KeyedByPair(rows: set<ServiceTeam>)
  {
    forall a, b :: a in rows && b in rows && a.projectId == b.projectId && a.serviceId == b.serviceId ==> a == b
  }

  /**
   * FirstOrCreate of each wanted row with no explicit condition: gorm queries on
   * the non-zero primary-key fields, ProjectID and ServiceID, so a wanted row
   * whose pair already has a row adds nothing, whatever its RemoteID.
   */
  function Inserted(existing: set<ServiceTeam>, wanted: set<ServiceTeam>): set<ServiceTeam>
  {
    existing + set st | st in wanted && !HasRowFor(existing, st)
  }

  /**
   * One team of the walk over the name index: the matched rows grow by that
   * team's row, if it has one, and checking it against the rows inserted so far
   * is the same as checking it against the rows there were before, because
   * project IDs are unique.
   */
  lemma InsertedStep(projects: map<string, Project>, svcId: nat, teams: map<string, Fossa.Team>, done: set<string>,
                     name: string, existing: set<ServiceTeam>)
    requires forall a, b :: a in projects && b in projects && a != b ==> projects[a].id != projects[b].id
    requires name in teams && name !in done
    ensures var w, w' := MatchedAmong(projects, svcId, teams, done), MatchedAmong(projects, svcId, teams, done + {name});
      if name in projects && projects[name].id != 0 then
        var st := ServiceTeam(projects[name].id, svcId, teams[name].id);
        && (HasRowFor(Inserted(existing, w), st) <==> HasRowFor(existing, st))
        && Inserted(existing, w') == Inserted(existing, w) + (if HasRowFor(existing, st) then {} else {st})
      else w' == w
  {
    var w, w' := MatchedAmong(projects, svcId, teams, done), MatchedAmong(projects, svcId, teams, done + {name});
    if name in projects && projects[name].id != 0 {
      var st := ServiceTeam(projects[name].id, svcId, teams[name].id);
      assert w' == w + {st};
      forall m | m in done && m in projects
        ensures projects[m].id != st.projectId
      {
        assert m != name;
      }
    }
  }

  /**
   * A row already stored for a (project, service) pair stays, and no row with
   * another RemoteID joins it; the inserted rows stay keyed by their pair.
   */
  lemma {:induction false} InsertedKeepsExisting(projects: map<string, Project>, svcId: nat, teams: map<string, Fossa.Team>,
                                                 existing: set<ServiceTeam>)
    requires forall a, b :: a in projects && b in projects && a != b ==> projects[a].id != projects[b].id
    requires KeyedByPair(existing)
    ensures var r := Inserted(existing, Matched(projects, svcId, teams));
      && existing <= r
      && KeyedByPair(r)
      && (forall e, st :: e in existing && st in r && st.projectId == e.projectId && st.serviceId == e.serviceId ==> st == e)
  {
    var w := Matched(projects, svcId, teams);
    var r := Inserted(existing, w);
    forall a, b | a in r && b in r && a.projectId == b.projectId && a.serviceId == b.serviceId
      ensures a == b
    {
      if a !in existing && b !in existing {
        var m :| m in teams && m in projects && projects[m].id != 0 && a == ServiceTeam(projects[m].id, svcId, teams[m].id);
        var n :| n in teams && n in projects && projects[n].id != 0 && b == ServiceTeam(projects[n].id, svcId, teams[n].id);
        assert m == n;
      }
    }
  }

  /** The db/main.go test reads the project ID through a possibly missing key: the zero project has ID 0. */
  function LegacyProjectId(projects: map<string, Project>, name: string): nat
  {
    if name in projects then projects[name].id else 0
  }

  /** The db/main.go test `pm[name].Project.ID != 0` selects the same teams as db/bootstrap.go's `exists && ID != 0`. */
  lemma LegacyFilterAgrees(projects: map<string, Project>, name: string)
    ensures LegacyProjectId(projects, name) != 0 <==> name in projects && projects[name].id != 0
  {
  }

  /** Why seeding stopped: the services transaction, the sheet, the FOSSA listing or the service-team transaction. */
  datatype SeedError = ServicesFailed | SheetFailed(sheetError: Sheet.SheetError) | TeamsFailed(clientError: Fossa.ClientError) | TeamInsertFailed

  class Store {
    var services: set<string>
    var projects: map<string, Project>
    var serviceTeams: set<ServiceTeam>
    var nextId: nat

    ghost predicate Valid()
      reads this
    {
      WellFormed(Tables(projects, nextId)) && KeyedByPair(serviceTeams)
    }

    /** A freshly migrated, empty database. */
    constructor ()
      ensures Valid()
      ensures services == {} && projects == map[] && serviceTeams == {} && nextId == 1
    {
      services := {};
      projects := map[];
      serviceTeams := {};
      nextId := 1;
    }

    /** FirstOrCreate of every service by name in one transaction: all of them, or none. */
    method LoadServices(names: seq<string>, committed: bool)
      modifies this
      ensures services == if committed then old(services) + (set i | 0 <= i < |names| :: names[i]) else old(services)
      ensures projects == old(projects) && nextId == old(nextId) && serviceTeams == old(serviceTeams)
    {
      var inserted := services;
      var i := 0;
      while i < |names|
        invariant 0 <= i <= |names|
        invariant inserted == services + (set j | 0 <= j < i :: names[j])
      {
        inserted := inserted + {names[i]};
        i := i + 1;
      }
      if committed {
        services := inserted;
      }
    }

    /** One row's transaction: the parent lookup, the record choice and FirstOrCreate by name. */
    method StoreRow(row: Sheet.Row, committed: bool)
      requires Valid()
      modifies this
      ensures Valid()
      ensures Tables(projects, nextId) == AddRow(old(Tables(projects, nextId)), row, committed)
      ensures services == old(services) && serviceTeams == old(serviceTeams)
    {
      AddRowWellFormed(Tables(projects, nextId), row, committed);
      var parent := ParentOf(projects, row);
      var project := ProjectRecord(row, parent);
      if committed && project.name != "" && project.name !in projects && project.maturity.IsValid() {
        projects := projects[project.name := project.(id := nextId)];
        nextId := nextId + 1;
      }
    }

    /**
     * loadMaintainersAndProjects: the sheet is read into rows (a failure ends
     * the process), then each row's transaction adds its project record.
     */
    method LoadMaintainersAndProjects(sheet: Sheet.Fetch, committed: nat -> bool) returns (err: Option<Sheet.SheetError>)
      requires Valid()
      modifies this
      ensures Valid()
      ensures Sheet.SheetRows(sheet).Err? ==> err == Some(Sheet.SheetRows(sheet).error) && unchanged(this)
      ensures Sheet.SheetRows(sheet).Ok? ==>
        err == None && Tables(projects, nextId) == Loaded(old(Tables(projects, nextId)), Sheet.SheetRows(sheet).value, committed)
      ensures services == old(services) && serviceTeams == old(serviceTeams)
    {
      var read := Sheet.ReadSheetRows(sheet);
      if read.Err? {
        return Some(read.error);
      }
      var rows := read.value;
      ghost var start := Tables(projects, nextId);
      var i := 0;
      while i < |rows|
        invariant 0 <= i <= |rows|
        invariant Tables(projects, nextId) == Loaded(start, rows[..i], committed)
        invariant services == old(services) && serviceTeams == old(serviceTeams)
      {
        LoadedWellFormed(start, rows[..i], committed);
        assert rows[..i + 1][..i] == rows[..i];
        StoreRow(rows[i], committed(i));
        i := i + 1;
      }
      assert rows[..|rows|] == rows;
      LoadedWellFormed(start, rows, committed);
      return None;
    }

    /**
     * loadFOSSAProjects: every team named like a project with a non-zero ID
     * gets a service-team row by FirstOrCreate, in one transaction; a pair that
     * already has a row keeps it.
     */
    method LoadFossaProjects(svcId: nat, teams: map<string, Fossa.Team>, committed: bool)
      requires Valid()
      modifies this
      ensures Valid()
      ensures serviceTeams == if committed then Inserted(old(serviceTeams), Matched(projects, svcId, teams)) else old(serviceTeams)
      ensures projects == old(projects) && nextId == old(nextId) && services == old(services)
    {
      InsertedKeepsExisting(projects, svcId, teams, serviceTeams);
      var inserted := serviceTeams;
      var rest := teams.Keys;
      while rest != {}
        invariant rest <= teams.Keys
        invariant inserted == Inserted(serviceTeams, MatchedAmong(projects, svcId, teams, teams.Keys - rest))
        invariant unchanged(this)
        decreases rest
      {
        var name :| name in rest;
        ghost var done := teams.Keys - rest;
        InsertedStep(projects, svcId, teams, done, name, serviceTeams);
        assert teams.Keys - (rest - {name}) == done + {name};
        if name in projects && projects[name].id != 0 {
          var st := ServiceTeam(projects[name].id, svcId, teams[name].id);
          if !HasRowFor(inserted, st) {
            inserted := inserted + {st};
          }
        }
        rest := rest - {name};
      }
      assert teams.Keys - rest == teams.Keys;
      if committed {
        serviceTeams := inserted;
      }
    }

    /**
     * The db/main.go copy of loadFOSSAProjects: the FOSSA service ID is fixed
     * at 1, and a failed team listing or transaction is only logged.
     */
    method LoadFossaProjectsLegacy(teamsReply: Fossa.Reply<seq<Fossa.Team>>, committed: bool)
      requires Valid()
      modifies this
      ensures Valid()
      ensures !Fossa.Accepted(teamsReply) ==> unchanged(this)
      ensures Fossa.Accepted(teamsReply) ==> forall tm :: Fossa.IndexedByName(teamsReply.body.value, tm) ==>
        serviceTeams == if committed then Inserted(old(serviceTeams), Matched(projects, FossaServiceId, tm)) else old(serviceTeams)
      ensures projects == old(projects) && nextId == old(nextId) && services == old(services)
    {
      var fetched := Fossa.FetchTeamsMap(teamsReply);
      if fetched.Ok? {
        LoadFossaProjects(FossaServiceId, fetched.value, committed);
        forall tm | Fossa.IndexedByName(teamsReply.body.value, tm)
          ensures tm == fetched.value
        {
          Fossa.IndexUnique(teamsReply.body.value, tm, fetched.value);
        }
      }
    }

    /**
     * BootstrapSQLite after migration: without `seed` nothing is inserted.
     * Otherwise the services, then the sheet's projects, then the FOSSA teams
     * are loaded, stopping at the first failure.
     */
    method Bootstrap(seed: bool, servicesCommitted: bool, sheet: Sheet.Fetch, rowCommitted: nat -> bool,
                     teamsReply: Fossa.Reply<seq<Fossa.Team>>, teamsCommitted: bool)
      returns (r: Result<(), SeedError>)
      requires Valid()
      modifies this
      ensures Valid()
      ensures !seed ==> r == Ok(()) && unchanged(this)
      ensures seed && !servicesCommitted ==> r == Err(ServicesFailed) && unchanged(this)
      ensures seed && servicesCommitted ==>
        services == old(services) + (set i | 0 <= i < |SeedServices| :: SeedServices[i])
      ensures seed && servicesCommitted && Sheet.SheetRows(sheet).Err? ==>
        r == Err(SheetFailed(Sheet.SheetRows(sheet).error))
        && projects == old(projects) && nextId == old(nextId) && serviceTeams == old(serviceTeams)
      ensures seed && servicesCommitted && Sheet.SheetRows(sheet).Ok? ==>
        Tables(projects, nextId) == Loaded(old(Tables(projects, nextId)), Sheet.SheetRows(sheet).value, rowCommitted)
      ensures seed && servicesCommitted && Sheet.SheetRows(sheet).Ok? && !Fossa.Accepted(teamsReply) ==>
        r == Err(TeamsFailed(Fossa.ReplyError(teamsReply))) && serviceTeams == old(serviceTeams)
      ensures seed && servicesCommitted && Sheet.SheetRows(sheet).Ok? && Fossa.Accepted(teamsReply) ==>
        (r.Ok? <==> teamsCommitted) && (!teamsCommitted ==> r == Err(TeamInsertFailed))
        && forall tm :: Fossa.IndexedByName(teamsReply.body.value, tm) ==>
             serviceTeams == if teamsCommitted then Inserted(old(serviceTeams), Matched(projects, FossaServiceId, tm))
                             else old(serviceTeams)
    {
      if !seed {
        return Ok(());
      }
      if !servicesCommitted {
        return Err(ServicesFailed);
      }
      LoadServices(SeedServices, true);
      var sheetErr := LoadMaintainersAndProjects(sheet, rowCommitted);
      if sheetErr.Some? {
        return Err(SheetFailed(sheetErr.value));
      }
      var fetched := Fossa.FetchTeamsMap(teamsReply);
      if fetched.Err? {
        return Err(TeamsFailed(fetched.error));
      }
      LoadFossaProjects(FossaServiceId, fetched.value, teamsCommitted);
      forall tm | Fossa.IndexedByName(teamsReply.body.value, tm)
        ensures tm == fetched.value
      {
        Fossa.IndexUnique(teamsReply.body.value, tm, fetched.value);
      }
      if !teamsCommitted {
        return Err(TeamInsertFailed);
      }
      return Ok(());
    }
  }
}
