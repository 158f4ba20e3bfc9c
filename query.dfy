/** What the data store does with a `where` clause: keep, in order, the joined rows the
    clause admits (`fetch`), or count them (`fetchCount`); and the reference filter the
    searches are proved against. */
module Query {
  import opened Wrappers
  import opened Entities
  import opened Conditions

  /** `fetch()` of a query over `rows` with the given `where` clause. */
  function Fetch(rows: seq<MemberTeamDto>, where: Option<Predicate>): (r: seq<MemberTeamDto>)
    ensures |r| <= |rows|
    ensures forall row :: row in r <==> row in rows && Admits(where, row)
  {
    if rows == [] then []
    else if Admits(where, rows[0]) then [rows[0]] + Fetch(rows[1..], where)
    else Fetch(rows[1..], where)
  }

  /** The rows a search condition selects, by its reference meaning. */
  function Matching(rows: seq<MemberTeamDto>, c: SearchCondition): (r: seq<MemberTeamDto>)
    ensures |r| <= |rows|
    ensures forall row :: row in r <==> row in rows && Accepts(c, row)
  {
    if rows == [] then []
    else if Accepts(c, rows[0]) then [rows[0]] + Matching(rows[1..], c)
    else Matching(rows[1..], c)
  }

  /** Running `memberCond(c)` in the store selects exactly the rows the condition means,
      in the store's order. */
  lemma {:induction false} FetchMemberCondIsMatching(rows: seq<MemberTeamDto>, c: SearchCondition)
    ensures Fetch(rows, MemberCond(c)) == Matching(rows, c)
  {
    if rows != [] {
      FetchMemberCondIsMatching(rows[1..], c);
    }
  }

  /** With no criterion the search returns every joined row. */
  lemma {:induction false} NoCriterionMatchesAll(rows: seq<MemberTeamDto>, c: SearchCondition)
    requires NoCriterion(c)
    ensures Matching(rows, c) == rows
  {
    if rows != [] {
      NoCriterionMatchesAll(rows[1..], c);
    }
  }

  /** Filtering commutes with keeping the rows that found a team. */
  lemma {:induction false} TeamedMatching(rows: seq<MemberTeamDto>, c: SearchCondition)
    ensures Teamed(Matching(rows, c)) == Matching(Teamed(rows), c)
  {
    if rows != [] {
      TeamedMatching(rows[1..], c);
    }
  }

  /** A left join selects every row an inner join selects, and possibly more: exactly the
      matching members without a team. */
  lemma {:induction false} InnerMatchesNoMoreThanLeft(ms: seq<Member>, c: SearchCondition)
    ensures |Matching(InnerJoin(ms), c)| <= |Matching(LeftJoin(ms), c)|
    ensures |Matching(LeftJoin(ms), c)| == |Matching(InnerJoin(ms), c)| + |Teamless(Matching(LeftJoin(ms), c))|
  {
    if ms != [] {
      InnerMatchesNoMoreThanLeft(ms[1..], c);
      assert LeftJoin(ms) == [Project(ms[0])] + LeftJoin(ms[1..]);
      assert ([Project(ms[0])] + LeftJoin(ms[1..]))[1..] == LeftJoin(ms[1..]);
    }
  }

  /** The rows of a left join that found no team. */
  function Teamless(rows: seq<MemberTeamDto>): (r: seq<MemberTeamDto>)
    ensures forall row :: row in r <==> row in rows && !HasTeam(row)
  {
    if rows == [] then []
    else if !HasTeam(rows[0]) then [rows[0]] + Teamless(rows[1..])
    else Teamless(rows[1..])
  }
}
