/**
 * `reconcileFOSSATeams`: for every project that has a FOSSA team, the team's
 * member e-mails are compared with the project's maintainer e-mails, both
 * lower-cased into sets. Maintainers missing from the team are to be invited;
 * team members who are not maintainers are reported as unregistered; and a
 * "signed up" or "n of m maintainers" message is chosen by comparing set sizes.
 * The HTTP fetch and the database reads are parameters.
 */
module Reconcile {
  import opened Wrappers
  import opened Text
  import Fossa

  /** The message logged for a team: "n SIGNED UP FOSSA USERS" or "n of m MAINTAINERS". */
  datatype Coverage = SignedUp(members: nat) | MaintainersOf(members: nat, total: nat)

  /** What one team's reconciliation emits. The source logs these in map order; as sets the order is gone. */
  datatype Diff = Diff(invites: set<string>, unregistered: set<string>, coverage: Coverage)

  datatype Report = Unreachable(error: Fossa.ClientError) | Diffed(diff: Diff)

  /** The lower-cased e-mails, duplicates collapsed. */
  function LowerSet(emails: seq<string>): set<string>
  {
    set i | 0 <= i < |emails| :: ToLower(emails[i])
  }

  /**
   * The diff of one team, as the source computes it. The size test compares the
   * team with `projectCount`, the number of PROJECTS in the database, not with
   * the number of this project's maintainers (db/main.go:314); see
   * `SignedUpComparesProjectCount` and `IntendedCoverage`.
   */
  function ExpectedDiff(maintainers: seq<string>, members: seq<string>, projectCount: nat): Diff
  {
    var m, f := LowerSet(maintainers), LowerSet(members);
    Diff(m - f, f - m, if |f| == projectCount then SignedUp(|f|) else MaintainersOf(|f|, projectCount))
  }

  lemma LowerSetStep(emails: seq<string>, i: nat)
    requires i < |emails|
    ensures LowerSet(emails[..i + 1]) == LowerSet(emails[..i]) + {ToLower(emails[i])}
  {
    var before, after := emails[..i], emails[..i + 1];
    assert forall j :: 0 <= j < i ==> after[j] == before[j];
    assert after[i] == emails[i];
  }

  /** A Go map used as a set, filled with the lower-cased e-mails. */
  method LowerCaseSet(emails: seq<string>) returns (s: set<string>)
    ensures s == LowerSet(emails)
  {
    s := {};
    var i := 0;
    while i < |emails|
      invariant 0 <= i <= |emails|
      invariant s == LowerSet(emails[..i])
    {
      LowerSetStep(emails, i);
      s := s + {ToLower(emails[i])};
      i := i + 1;
    }
    assert emails[..|emails|] == emails;
  }

  /** Walks `from` in no particular order, keeping what `other` lacks. */
  method Missing(from: set<string>, other: set<string>) returns (found: set<string>)
    ensures found == from - other
  {
    found := {};
    var rest := from;
    while rest != {}
      invariant rest <= from
      invariant found == (from - rest) - other
      decreases rest
    {
      var email :| email in rest;
      if email !in other {
        found := found + {email};
      }
      rest := rest - {email};
    }
  }

  /** One team's reconciliation, once its member e-mails have been fetched. */
  method DiffTeam(maintainers: seq<string>, members: seq<string>, projectCount: nat) returns (d: Diff)
    ensures d == ExpectedDiff(maintainers, members, projectCount)
  {
    var maintainerSet := LowerCaseSet(maintainers);
    var fossaSet := LowerCaseSet(members);
    var coverage;
    if |fossaSet| == projectCount {
      coverage := SignedUp(|fossaSet|);
    } else {
      coverage := MaintainersOf(|fossaSet|, projectCount);
    }
    var invites := Missing(maintainerSet, fossaSet);
    var unregistered := Missing(fossaSet, maintainerSet);
    d := Diff(invites, unregistered, coverage);
  }

  /** The maintainer e-mails of a project; a project missing from the map has none. */
  function MaintainerEmails(projects: map<nat, seq<string>>, id: nat): seq<string>
  {
    if id in projects then projects[id] else []
  }

  /** The report for one project, given the reply to its team-members request. */
  function ExpectedReport(projects: map<nat, seq<string>>, id: nat, reply: Fossa.Reply<Fossa.TeamMembers>): Report
  {
    if Fossa.Accepted(reply)
    then Diffed(ExpectedDiff(MaintainerEmails(projects, id), Fossa.MemberEmails(reply.body.value), |projects|))
    else Unreachable(Fossa.ReplyError(reply))
  }

  /**
   * reconcileFOSSATeams: `projects` maps a project ID to its maintainers' e-mails,
   * `teams` maps a project ID to its FOSSA team ID, and `fetch` answers the
   * members request for a team ID. Every project with a team gets a report;
   * a failed fetch is only logged.
   */
  method ReconcileFossaTeams(projects: map<nat, seq<string>>, teams: map<nat, int>,
                             fetch: int -> Fossa.Reply<Fossa.TeamMembers>)
    returns (reports: map<nat, Report>)
    ensures reports.Keys == teams.Keys
    ensures forall id :: id in reports ==> reports[id] == ExpectedReport(projects, id, fetch(teams[id]))
  {
    reports := map[];
    var rest := teams.Keys;
    while rest != {}
      invariant rest <= teams.Keys
      invariant reports.Keys == teams.Keys - rest
      invariant forall id :: id in reports ==> reports[id] == ExpectedReport(projects, id, fetch(teams[id]))
      decreases rest
    {
      var id :| id in rest;
      var emails := Fossa.FetchTeamUserEmails(fetch(teams[id]));
      if emails.Err? {
        reports := reports[id := Unreachable(emails.error)];
      } else {
        var d := DiffTeam(MaintainerEmails(projects, id), emails.value, |projects|);
        reports := reports[id := Diffed(d)];
      }
      rest := rest - {id};
    }
  }

  /**
   * Invites go to exactly the maintainers absent from the team, "unregistered"
   * to exactly the members who are not maintainers, and no address gets both.
   */
  lemma DiffIsSetDifference(maintainers: seq<string>, members: seq<string>, projectCount: nat, e: string)
    ensures var d := ExpectedDiff(maintainers, members, projectCount);
      && (e in d.invites <==> e in LowerSet(maintainers) && e !in LowerSet(members))
      && (e in d.unregistered <==> e in LowerSet(members) && e !in LowerSet(maintainers))
      && d.invites !! d.unregistered
  {
  }

  /** Addresses that differ only in letter case are the same person: no invite and no report for them. */
  lemma CaseInsensitiveMatch(maintainers: seq<string>, members: seq<string>, projectCount: nat, i: nat, j: nat)
    requires i < |maintainers| && j < |members|
    requires SameIgnoringCase(maintainers[i], members[j])
    ensures var d := ExpectedDiff(maintainers, members, projectCount);
      ToLower(maintainers[i]) !in d.invites && ToLower(members[j]) !in d.unregistered
  {
    ToLowerCanonical(maintainers[i], members[j]);
    assert ToLower(maintainers[i]) in LowerSet(maintainers);
    assert ToLower(members[j]) in LowerSet(members);
  }

  /** Every invite and every report is an address in lower case. */
  lemma DiffIsLowerCase(maintainers: seq<string>, members: seq<string>, projectCount: nat, e: string)
    requires var d := ExpectedDiff(maintainers, members, projectCount); e in d.invites + d.unregistered
    ensures ToLower(e) == e
  {
    var i :| (0 <= i < |maintainers| && e == ToLower(maintainers[i])) || (0 <= i < |members| && e == ToLower(members[i]));
    if 0 <= i < |maintainers| && e == ToLower(maintainers[i]) {
      ToLowerCanonical(maintainers[i], maintainers[i]);
    } else {
      ToLowerCanonical(members[i], members[i]);
    }
  }

  /** Swapping the two lists swaps the two outputs. */
  lemma DiffSymmetric(maintainers: seq<string>, members: seq<string>, projectCount: nat)
    ensures ExpectedDiff(maintainers, members, projectCount).invites
         == ExpectedDiff(members, maintainers, projectCount).unregistered
  {
  }

  /** The "signed up" message is chosen exactly when the team's size equals the number of projects. */
  lemma SignedUpComparesProjectCount(maintainers: seq<string>, members: seq<string>, projectCount: nat)
    ensures var d := ExpectedDiff(maintainers, members, projectCount);
      d.coverage.SignedUp? <==> |LowerSet(members)| == projectCount
  {
  }

  lemma SingletonLowerSet(email: string)
    requires ToLower(email) == email
    ensures LowerSet([email]) == {email}
  {
    assert [email][0] == email;
  }

  /**
   * As written, a team holding exactly the project's one maintainer is not
   * reported as signed up when the database has two projects.
   */
  lemma CoverageCounterexample()
    ensures var d := ExpectedDiff(["a@x.org"], ["a@x.org"], 2);
      d.invites == {} && d.unregistered == {} && d.coverage == MaintainersOf(1, 2)
  {
    var e := "a@x.org";
    assert ToLower(e) == e;
    SingletonLowerSet(e);
  }

  /** The evidently intended message: the team's size against this project's maintainer count. */
  function IntendedCoverage(maintainers: seq<string>, members: seq<string>): Coverage
  {
    var m, f := LowerSet(maintainers), LowerSet(members);
    if |f| == |m| then SignedUp(|f|) else MaintainersOf(|f|, |m|)
  }

  /**
   * With the intended comparison, a team that matches the maintainers is
   * signed up; and once nobody needs an invite, "signed up" means nobody is
   * unregistered either.
   */
  lemma IntendedCoverageSound(maintainers: seq<string>, members: seq<string>, projectCount: nat)
    ensures var d := ExpectedDiff(maintainers, members, projectCount);
      && (LowerSet(maintainers) == LowerSet(members) ==> IntendedCoverage(maintainers, members).SignedUp?)
      && (d.invites == {} ==> (IntendedCoverage(maintainers, members).SignedUp? <==> d.unregistered == {}))
  {
    var m, f := LowerSet(maintainers), LowerSet(members);
    if m - f == {} {
      forall x | x in m
        ensures x in f
      {
        assert x !in m - f;
      }
      assert f == m + (f - m);
      assert |f| == |m| + |f - m|;
    }
  }
}
