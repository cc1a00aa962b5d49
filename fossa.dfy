/**
 * The decision logic of the FOSSA REST client, without HTTP or JSON: every
 * exchange is given as a `Reply` (no response, or a status code with the body
 * decoded as the caller expects it), and the client's choices are modelled on
 * top of it: team lookup by name, the name-keyed team index, user pagination,
 * member e-mail extraction and the error-code classifications.
 */
module Fossa {
  import opened Wrappers

  const StatusOK := 200
  const StatusCreated := 201
  /** Users requested per page by FetchUsers. */
  const PageSize := 100
  const ErrCodeInviteAlreadyExists := 2011
  const ErrCodeUserAlreadyMember := 2001
  const ErrCodeTeamAlreadyExists := 2003

  datatype Team = Team(id: int, name: string)
  datatype User = User(id: int, username: string, email: string)
  datatype Member = Member(userId: int, roleId: int, username: string, email: string)
  datatype TeamMembers = TeamMembers(results: seq<Member>, pageSize: int, page: int, totalCount: int)
  /** FOSSA's error body. */
  datatype ApiError = ApiError(code: int, message: string, name: string)

  /** One HTTP exchange: no response at all, or a status with the body decoded as expected (None: it did not decode). */
  datatype Reply<T> = TransportFailed | Reply(status: int, body: Option<T>)

  datatype ClientError =
    | RequestFailed
    | HttpFailure(status: int)
    | DecodeFailed
    | TeamNotFound(name: string)
    | InviteAlreadyExists
    | UserAlreadyMember
    | InviteRejected(code: int)
    | CreateRejected(code: int)
    | Unanswered

  /** A reply that the listing calls accept: status 200 and a body that decoded. */
  predicate Accepted<T>(reply: Reply<T>)
  {
    reply.Reply? && reply.status == StatusOK && reply.body.Some?
  }

  /** The error a listing call reports for a reply it does not accept. */
  function ReplyError<T>(reply: Reply<T>): (e: ClientError)
    requires !Accepted(reply)
    ensures reply.TransportFailed? <==> e == RequestFailed
    ensures e.HttpFailure? <==> reply.Reply? && reply.status != StatusOK
    ensures e == DecodeFailed <==> reply.Reply? && reply.status == StatusOK
  {
    match reply
    case TransportFailed => RequestFailed
    case Reply(status, _) => if status != StatusOK then HttpFailure(status) else DecodeFailed
  }

  /** GET /teams: the team list, or the error of a reply that is not accepted. */
  function FetchTeams(reply: Reply<seq<Team>>): (r: Result<seq<Team>, ClientError>)
    ensures r.Ok? <==> Accepted(reply)
    ensures r.Ok? ==> r.value == reply.body.value
  {
    if Accepted(reply) then Ok(reply.body.value) else Err(ReplyError(reply))
  }

  /** `i` is the first position of a team called `name`. */
  predicate FirstNamed(teams: seq<Team>, name: string, i: int)
  {
    0 <= i < |teams| && teams[i].name == name && forall j :: 0 <= j < i ==> teams[j].name != name
  }

  /** `i` is the last position of a team called `name`. */
  predicate LastNamed(teams: seq<Team>, name: string, i: int)
  {
    0 <= i < |teams| && teams[i].name == name && forall j :: i < j < |teams| ==> teams[j].name != name
  }

  predicate Named(teams: seq<Team>, name: string)
  {
    exists i :: 0 <= i < |teams| && teams[i].name == name
  }

  /** GetTeamId: the ID of the first team called `name`, or "team not found". */
  method GetTeamId(teams: seq<Team>, name: string) returns (r: Result<int, ClientError>)
    ensures r.Ok? <==> Named(teams, name)
    ensures r.Ok? ==> exists i :: FirstNamed(teams, name, i) && r.value == teams[i].id
    ensures r.Err? ==> r.error == TeamNotFound(name)
  {
    var i := 0;
    while i < |teams|
      invariant 0 <= i <= |teams|
      invariant forall j :: 0 <= j < i ==> teams[j].name != name
    {
      if teams[i].name == name {
        assert FirstNamed(teams, name, i);
        return Ok(teams[i].id);
      }
      i := i + 1;
    }
    return Err(TeamNotFound(name));
  }

  /** The list FetchTeam searches: a failed listing leaves it empty. */
  function ListedTeams(reply: Reply<seq<Team>>): (teams: seq<Team>)
    ensures !Accepted(reply) ==> teams == []
  {
    if FetchTeams(reply).Ok? then FetchTeams(reply).value else []
  }

  /**
   * FetchTeam: the first listed team called `name`. The listing's own error
   * is dropped, so a failed listing reads as "not found".
   */
  method FetchTeam(name: string, reply: Reply<seq<Team>>) returns (r: Result<Team, ClientError>)
    ensures r.Ok? <==> Named(ListedTeams(reply), name)
    ensures r.Ok? ==> exists i :: FirstNamed(ListedTeams(reply), name, i) && r.value == ListedTeams(reply)[i]
    ensures r.Err? ==> r.error == TeamNotFound(name)
  {
    var teams := ListedTeams(reply);
    var i := 0;
    while i < |teams|
      invariant 0 <= i <= |teams|
      invariant forall j :: 0 <= j < i ==> teams[j].name != name
    {
      if teams[i].name == name {
        assert FirstNamed(teams, name, i);
        return Ok(teams[i]);
      }
      i := i + 1;
    }
    return Err(TeamNotFound(name));
  }

  /** `index` keys every team of `teams` by name, the last team of each name winning. */
  ghost predicate IndexedByName(teams: seq<Team>, index: map<string, Team>)
  {
    && (forall n :: n in index <==> Named(teams, n))
    && (forall n :: n in index ==> exists i :: LastNamed(teams, n, i) && index[n] == teams[i])
  }

  lemma IndexStep(teams: seq<Team>, k: nat, index: map<string, Team>)
    requires k < |teams|
    requires IndexedByName(teams[..k], index)
    ensures IndexedByName(teams[..k + 1], index[teams[k].name := teams[k]])
  {
    var before, after := teams[..k], teams[..k + 1];
    var index' := index[teams[k].name := teams[k]];
    assert forall j :: 0 <= j < k ==> after[j] == before[j];
    forall n
      ensures n in index' <==> Named(after, n)
    {
      if Named(after, n) && n != teams[k].name {
        var i :| 0 <= i < |after| && after[i].name == n;
        assert before[i].name == n;
      }
    }
    forall n | n in index'
      ensures exists i :: LastNamed(after, n, i) && index'[n] == after[i]
    {
      if n == teams[k].name {
        assert LastNamed(after, n, k);
      } else {
        var i :| LastNamed(before, n, i) && index[n] == before[i];
        assert LastNamed(after, n, i);
      }
    }
  }

  /** FetchTeamsMap: the listed teams keyed by name; when names collide, the later team wins. */
  method FetchTeamsMap(reply: Reply<seq<Team>>) returns (r: Result<map<string, Team>, ClientError>)
    ensures !Accepted(reply) ==> r == Err(ReplyError(reply))
    ensures Accepted(reply) ==> r.Ok? && IndexedByName(reply.body.value, r.value)
  {
    var fetched := FetchTeams(reply);
    if fetched.Err? {
      return Err(fetched.error);
    }
    var teams := fetched.value;
    var tm: map<string, Team> := map[];
    var i := 0;
    while i < |teams|
      invariant 0 <= i <= |teams|
      invariant IndexedByName(teams[..i], tm)
    {
      IndexStep(teams, i, tm);
      tm := tm[teams[i].name := teams[i]];
      i := i + 1;
    }
    assert teams[..|teams|] == teams;
    return Ok(tm);
  }

  /** The name index of a team list is unique, so FetchTeamsMap's result is determined by the listing. */
  lemma IndexUnique(teams: seq<Team>, a: map<string, Team>, b: map<string, Team>)
    requires IndexedByName(teams, a) && IndexedByName(teams, b)
    ensures a == b
  {
    forall n | n in a
      ensures a[n] == b[n]
    {
      var i :| LastNamed(teams, n, i) && a[n] == teams[i];
      var l :| LastNamed(teams, n, l) && b[n] == teams[l];
      assert i == l;
    }
    assert a.Keys == b.Keys;
  }

  /** When no two listed teams share a name, the map and the lookup by name agree. */
  lemma IndexAgreesWithLookup(teams: seq<Team>, index: map<string, Team>, name: string, i: int)
    requires IndexedByName(teams, index)
    requires forall j, k :: 0 <= j < k < |teams| ==> teams[j].name != teams[k].name
    requires FirstNamed(teams, name, i)
    ensures name in index && index[name] == teams[i]
  {
    assert Named(teams, name);
    var l :| LastNamed(teams, name, l) && index[name] == teams[l];
    assert teams[i].name == teams[l].name;
  }

  /** A page FetchUsers reads and goes on from: accepted, and holding at least a full page of users. */
  predicate FullPage(reply: Reply<seq<User>>)
  {
    Accepted(reply) && |reply.body.value| >= PageSize
  }

  /** The position of the first reply that is not a full page (|replies| when all are). */
  function StopPage(replies: seq<Reply<seq<User>>>): (n: nat)
    ensures n <= |replies|
    ensures forall j :: 0 <= j < n ==> FullPage(replies[j])
    ensures n < |replies| ==> !FullPage(replies[n])
  {
    if |replies| == 0 || !FullPage(replies[0]) then 0 else 1 + StopPage(replies[1..])
  }

  /** The users of the accepted replies, in order. */
  function UsersOf(replies: seq<Reply<seq<User>>>): seq<User>
  {
    if |replies| == 0 then []
    else
      var last := replies[|replies| - 1];
      UsersOf(replies[..|replies| - 1]) + if Accepted(last) then last.body.value else []
  }

  /**
   * FetchUsers: `replies[k]` answers the request for page k + 1 with count 100.
   * Pages are requested in order and concatenated until the first accepted page
   * holding fewer than 100 users; the first reply not accepted ends the call with
   * its error and no users. Running past the last given reply is `Unanswered`.
   */
  method FetchUsers(replies: seq<Reply<seq<User>>>) returns (r: Result<seq<User>, ClientError>)
    ensures var n := StopPage(replies);
      && (n == |replies| ==> r == Err(Unanswered))
      && (n < |replies| && Accepted(replies[n]) ==> r == Ok(UsersOf(replies[..n + 1])))
      && (n < |replies| && !Accepted(replies[n]) ==> r == Err(ReplyError(replies[n])))
  {
    var allUsers: seq<User> := [];
    var page := 1;
    while true
      invariant 1 <= page <= StopPage(replies) + 1
      invariant allUsers == UsersOf(replies[..page - 1])
      decreases |replies| - page
    {
      if page > |replies| {
        return Err(Unanswered);
      }
      var reply := replies[page - 1];
      assert replies[..page] == replies[..page - 1] + [reply];
      if reply.TransportFailed? {
        return Err(RequestFailed);
      }
      if reply.status != StatusOK {
        return Err(HttpFailure(reply.status));
      }
      if reply.body.None? {
        return Err(DecodeFailed);
      }
      var users := reply.body.value;
      allUsers := allUsers + users;
      // fewer users than asked for: this was the last page
      if |users| < PageSize {
        break;
      }
      page := page + 1;
    }
    r := Ok(allUsers);
  }

  /** The e-mails a members reply yields: those of its results, in order, but none when totalCount is not positive. */
  function MemberEmails(members: TeamMembers): seq<string>
  {
    if members.totalCount > 0 then seq(|members.results|, i requires 0 <= i < |members.results| => members.results[i].email)
    else []
  }

  /** FetchTeamUserEmails: the members' e-mails in reply order, none when totalCount is not positive. */
  method FetchTeamUserEmails(reply: Reply<TeamMembers>) returns (r: Result<seq<string>, ClientError>)
    ensures !Accepted(reply) ==> r == Err(ReplyError(reply))
    ensures Accepted(reply) ==> r == Ok(MemberEmails(reply.body.value))
    ensures Accepted(reply) && reply.body.value.totalCount <= 0 ==> r.value == []
    ensures Accepted(reply) && reply.body.value.totalCount > 0 ==>
      var results := reply.body.value.results;
      |r.value| == |results| && forall i :: 0 <= i < |results| ==> r.value[i] == results[i].email
  {
    if !Accepted(reply) {
      return Err(ReplyError(reply));
    }
    var members := reply.body.value;
    var emails: seq<string> := [];
    if members.totalCount > 0 {
      var i := 0;
      while i < |members.results|
        invariant 0 <= i <= |members.results|
        invariant |emails| == i
        invariant forall j :: 0 <= j < i ==> emails[j] == members.results[j].email
      {
        emails := emails + [members.results[i].email];
        i := i + 1;
      }
      assert emails == MemberEmails(members);
    }
    return Ok(emails);
  }

  /**
   * SendUserInvitation: only status 200 succeeds (None). Otherwise the error body
   * is classified: 2011 is an existing invitation, 2001 an existing member, any
   * other code a rejection; an undecodable body is a decoding failure.
   */
  function SendUserInvitation(reply: Reply<ApiError>): (err: Option<ClientError>)
    ensures err == None <==> reply.Reply? && reply.status == StatusOK
    ensures err == Some(InviteAlreadyExists) <==>
      reply.Reply? && reply.status != StatusOK && reply.body.Some? && reply.body.value.code == ErrCodeInviteAlreadyExists
    ensures err == Some(UserAlreadyMember) <==>
      reply.Reply? && reply.status != StatusOK && reply.body.Some? && reply.body.value.code == ErrCodeUserAlreadyMember
    ensures (err.Some? && err.value.InviteRejected?) <==>
      reply.Reply? && reply.status != StatusOK && reply.body.Some?
      && reply.body.value.code != ErrCodeInviteAlreadyExists && reply.body.value.code != ErrCodeUserAlreadyMember
  {
    match reply
    case TransportFailed => Some(RequestFailed)
    case Reply(status, body) =>
      if status == StatusOK then None
      else if body.None? then Some(DecodeFailed)
      else if body.value.code == ErrCodeInviteAlreadyExists then Some(InviteAlreadyExists)
      else if body.value.code == ErrCodeUserAlreadyMember then Some(UserAlreadyMember)
      else Some(InviteRejected(body.value.code))
  }

  /**
   * CreateTeam: 200 and 201 return the created team. Error code 2003 (the team
   * exists) falls back to looking the team up by name; any other decoded code is
   * a rejection, and an undecodable error body (or a failed fallback) reports the
   * status. `asTeam` is the same body decoded as a team.
   */
  method CreateTeam(name: string, reply: Reply<ApiError>, asTeam: Option<Team>, listing: Reply<seq<Team>>)
    returns (r: Result<Team, ClientError>)
    ensures reply.TransportFailed? ==> r == Err(RequestFailed)
    ensures reply.Reply? && (reply.status == StatusOK || reply.status == StatusCreated) ==>
      r == if asTeam.Some? then Ok(asTeam.value) else Err(DecodeFailed)
    ensures reply.Reply? && reply.status != StatusOK && reply.status != StatusCreated ==>
      if reply.body.None? then r == Err(HttpFailure(reply.status))
      else if reply.body.value.code != ErrCodeTeamAlreadyExists then r == Err(CreateRejected(reply.body.value.code))
      else if asTeam.None? then r == Err(DecodeFailed)
      else if Named(ListedTeams(listing), name) then
        r.Ok? && exists i :: FirstNamed(ListedTeams(listing), name, i) && r.value == ListedTeams(listing)[i]
      else r == Err(HttpFailure(reply.status))
  {
    if reply.TransportFailed? {
      return Err(RequestFailed);
    }
    if reply.status != StatusOK && reply.status != StatusCreated {
      if reply.body.Some? {
        var fossaErr := reply.body.value;
        if fossaErr.code == ErrCodeTeamAlreadyExists {
          if asTeam.None? {
            return Err(DecodeFailed);
          }
          var found := FetchTeam(name, listing);
          if found.Ok? {
            // the team-already-exists error is disregarded
            return Ok(found.value);
          }
        } else {
          return Err(CreateRejected(fossaErr.code));
        }
      }
      // fallback: unknown error format
      return Err(HttpFailure(reply.status));
    }
    if asTeam.None? {
      return Err(DecodeFailed);
    }
    return Ok(asTeam.value);
  }
}
