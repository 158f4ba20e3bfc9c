/** `MemberJpaRepository`: three searches over the same condition, differing in how the
    `where` clause is assembled and in how the team is joined. */
module MemberJpaRepository {
  import opened Wrappers
  import opened Text
  import opened Entities
  import opened Conditions
  import opened Query

  /** The `BooleanBuilder` part of `searchByBuilder`: each criterion that passes its gate is
      and-ed into the builder in turn. The expression obtained is the very one `memberCond`
      builds, so both shapes emit the same query. */
  method BuildPredicate(c: SearchCondition) returns (where: Option<Predicate>)
    ensures where == MemberCond(c)
    ensures forall row :: Admits(where, row) <==> Accepts(c, row)
  {
    var builder := new BooleanBuilder();
    if HasText(c.username) {
      builder.AndWith(Frag(UsernameEq(c.username.value)));
    }
    if HasText(c.teamName) {
      builder.AndWith(Frag(TeamNameContains(c.teamName.value)));
    }
    if c.ageGoe.Some? {
      builder.AndWith(Frag(AgeGoe(c.ageGoe.value)));
    }
    if c.ageLoe.Some? {
      builder.AndWith(Frag(AgeLoe(c.ageLoe.value)));
    }
    where := builder.value;
    BuilderIsAllOf(c);
  }

  /** The expression the builder holds after the four gated `and` calls, written as a
      function of the condition. */
  function BuilderValue(c: SearchCondition): Option<Predicate> {
    var v0: Option<Predicate> := None;
    var v1 := if HasText(c.username) then AndOpt(v0, Some(Frag(UsernameEq(c.username.value)))) else v0;
    var v2 := if HasText(c.teamName) then AndOpt(v1, Some(Frag(TeamNameContains(c.teamName.value)))) else v1;
    var v3 := if c.ageGoe.Some? then AndOpt(v2, Some(Frag(AgeGoe(c.ageGoe.value)))) else v2;
    if c.ageLoe.Some? then AndOpt(v3, Some(Frag(AgeLoe(c.ageLoe.value)))) else v3
  }

  lemma BuilderIsAllOf(c: SearchCondition)
    ensures BuilderValue(c) == MemberCond(c)
  {
    WhereOfSlotsIsMemberCond(c);
    WhereOfFour(UsernameCond(c.username), TeamNameCond(c.teamName), AgeGoeCond(c.ageGoe), AgeLoeCond(c.ageLoe));
  }

  /** `searchByBuilder`: the builder's expression over `member left join team`. Members
      without a team take part, with null team columns. */
  method SearchByBuilder(ms: seq<Member>, c: SearchCondition) returns (result: seq<MemberTeamDto>)
    ensures result == Matching(LeftJoin(ms), c)
    ensures forall row :: row in result <==> row in LeftJoin(ms) && Accepts(c, row)
  {
    var where := BuildPredicate(c);
    result := Fetch(LeftJoin(ms), where);
    FetchMemberCondIsMatching(LeftJoin(ms), c);
  }

  /** `searchNullEx`: the single `memberCond(..)` argument over `member join team`. */
  function SearchNullEx(ms: seq<Member>, c: SearchCondition): (result: seq<MemberTeamDto>)
    ensures result == Matching(InnerJoin(ms), c)
  {
    FetchMemberCondIsMatching(InnerJoin(ms), c);
    Fetch(InnerJoin(ms), MemberCond(c))
  }

  /** `searchNotNullEx`: the four builder results passed to `where` as separate arguments,
      the null ones skipped. It returns what `searchNullEx` returns, for every condition. */
  function SearchNotNullEx(ms: seq<Member>, c: SearchCondition): (result: seq<MemberTeamDto>)
    ensures result == SearchNullEx(ms, c)
    ensures forall row :: row in result <==> row in InnerJoin(ms) && Accepts(c, row)
  {
    WhereOfSlotsIsMemberCond(c);
    Fetch(InnerJoin(ms), Where(Slots(c)))
  }

  /** The left-joined builder search and the inner-joined searches agree on the members that
      have a team: dropping the team-less rows from the former gives the latter, in order. */
  lemma ByBuilderAgreesOnTeamedMembers(ms: seq<Member>, c: SearchCondition)
    ensures Teamed(Matching(LeftJoin(ms), c)) == SearchNullEx(ms, c)
  {
    TeamedMatching(LeftJoin(ms), c);
    InnerJoinIsTeamedLeftJoin(ms);
  }
}
