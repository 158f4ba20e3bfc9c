/** The two entities the searches read, the joined projection they return, and the two
    joins (`join(member.team, team)` and `leftJoin(member.team, team)`). The data store is
    a sequence of members in the order the store returns them; each member holds its team
    (a many-to-one association) or none. */
module Entities {
  import opened Wrappers

  datatype Team = Team(id: int, name: string)

  datatype Member = Member(id: int, username: string, age: int, team: Option<Team>)

  /** `MemberTeamDto`: one joined (member, team) pair projected to
      (memberId, username, age, teamId, teamName); the team columns are null when a left
      join found no team. */
  datatype MemberTeamDto = MemberTeamDto(
    memberId: int, username: string, age: int, teamId: Option<int>, teamName: Option<string>)

  /** The projection `new QMemberTeamDto(member.id, member.username, member.age, team.id,
      team.name)` of one member and its (possibly absent) team. */
  function Project(m: Member): (row: MemberTeamDto)
    ensures row.memberId == m.id && row.username == m.username && row.age == m.age
    ensures row.teamId.Some? <==> m.team.Some?
    ensures row.teamName.Some? <==> m.team.Some?
    ensures m.team.Some? ==> row.teamId.value == m.team.value.id && row.teamName.value == m.team.value.name
  {
    match m.team
    case None => MemberTeamDto(m.id, m.username, m.age, None, None)
    case Some(t) => MemberTeamDto(m.id, m.username, m.age, Some(t.id), Some(t.name))
  }

  predicate HasTeam(row: MemberTeamDto) {
    row.teamId.Some?
  }

  /** `from(member).leftJoin(member.team, team)`: every member, once, with its team if any. */
  function LeftJoin(ms: seq<Member>): (rows: seq<MemberTeamDto>)
    ensures |rows| == |ms|
    ensures forall i :: 0 <= i < |ms| ==> rows[i] == Project(ms[i])
  {
    if ms == [] then [] else [Project(ms[0])] + LeftJoin(ms[1..])
  }

  /** `from(member).join(member.team, team)`: the members that have a team, in order. */
  function InnerJoin(ms: seq<Member>): (rows: seq<MemberTeamDto>)
    ensures |rows| <= |ms|
    ensures forall row :: row in rows ==> HasTeam(row) && row.teamName.Some?
    ensures forall m :: m in ms && m.team.Some? ==> Project(m) in rows
    ensures forall row :: row in rows ==> exists m :: m in ms && m.team.Some? && row == Project(m)
  {
    if ms == [] then []
    else if ms[0].team.Some? then [Project(ms[0])] + InnerJoin(ms[1..])
    else InnerJoin(ms[1..])
  }

  /** The rows of a left join that found a team. */
  function Teamed(rows: seq<MemberTeamDto>): (r: seq<MemberTeamDto>)
    ensures |r| <= |rows|
    ensures forall row :: row in r <==> row in rows && HasTeam(row)
  {
    if rows == [] then []
    else if HasTeam(rows[0]) then [rows[0]] + Teamed(rows[1..])
    else Teamed(rows[1..])
  }

  /** An inner join is exactly the part of the left join that found a team, in the same order. */
  lemma {:induction false} InnerJoinIsTeamedLeftJoin(ms: seq<Member>)
    ensures InnerJoin(ms) == Teamed(LeftJoin(ms))
  {
    if ms != [] {
      InnerJoinIsTeamedLeftJoin(ms[1..]);
      assert LeftJoin(ms)[1..] == LeftJoin(ms[1..]);
    }
  }
}
