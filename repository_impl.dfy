/** `MemberRepositoryImpl`: the plain search and the two paged searches. All three fetch
    `member join team` under `memberCond(..)`; they differ in how the page total is found. */
module MemberRepositoryImpl {
  import opened Wrappers
  import opened Entities
  import opened Conditions
  import opened Query
  import opened Paging

  /** `search`: every inner-joined row the condition selects, in the store's order. */
  function Search(ms: seq<Member>, c: SearchCondition): (result: seq<MemberTeamDto>)
    ensures result == Matching(InnerJoin(ms), c)
    ensures forall row :: row in result <==> row in InnerJoin(ms) && Accepts(c, row)
  {
    FetchMemberCondIsMatching(InnerJoin(ms), c);
    Fetch(InnerJoin(ms), MemberCond(c))
  }

  /** QueryDSL's `QueryResults`: one page of rows and the count of all rows the query selects. */
  datatype QueryResults = QueryResults(results: seq<MemberTeamDto>, total: nat)

  /** `fetchResults()` of a query with `offset`/`limit`: the page and, from a count query
      with the same joins and `where` clause, the size of the whole result. */
  function FetchResults(rows: seq<MemberTeamDto>, where: Option<Predicate>, offset: nat, limit: nat): (r: QueryResults)
    ensures r.total == |Fetch(rows, where)|
    ensures |r.results| <= limit
    ensures offset >= r.total ==> r.results == []
    ensures offset < r.total ==> |r.results| == if offset + limit <= r.total then limit else r.total - offset
    ensures forall i :: 0 <= i < |r.results| ==> offset + i < r.total && r.results[i] == Fetch(rows, where)[offset + i]
  {
    var all := Fetch(rows, where);
    QueryResults(Slice(all, offset, limit), |all|)
  }

  /** The total of `fetchResults` counts the whole result, so no choice of page changes it. */
  lemma FetchResultsTotalIgnoresPage(rows: seq<MemberTeamDto>, where: Option<Predicate>,
                                     offset1: nat, limit1: nat, offset2: nat, limit2: nat)
    ensures FetchResults(rows, where, offset1, limit1).total == FetchResults(rows, where, offset2, limit2).total
  {
  }

  /** `searchSimple`: the page is the slice `[offset, offset + pageSize)` of the selected
      rows, and the total is the number of all selected rows, whatever the page. */
  function SearchSimple(ms: seq<Member>, c: SearchCondition, p: Pageable): (page: Page<MemberTeamDto>)
    ensures page.pageable == p
    ensures page.content == Slice(Matching(InnerJoin(ms), c), p.Offset(), p.pageSize)
    ensures page.total == |Matching(InnerJoin(ms), c)|
    ensures |page.content| <= p.pageSize
    ensures p.Offset() >= page.total ==> page.content == []
  {
    FetchMemberCondIsMatching(InnerJoin(ms), c);
    var results := FetchResults(InnerJoin(ms), MemberCond(c), p.Offset(), p.pageSize);
    Page(results.results, p, results.total)
  }

  /** The count query of `searchComplex`: `select member from member left join team`
      under the same `where` clause. */
  function LeftJoinCount(ms: seq<Member>, c: SearchCondition): (n: nat)
    ensures n == |Matching(LeftJoin(ms), c)|
  {
    FetchMemberCondIsMatching(LeftJoin(ms), c);
    |Fetch(LeftJoin(ms), MemberCond(c))|
  }

  /** `searchComplex`, as written: the content as in `searchSimple`; the total inferred when
      the page is provably the last, otherwise from the deferred left-join count. That count
      also takes in the selected members that have no team, which the content never shows. */
  function SearchComplex(ms: seq<Member>, c: SearchCondition, p: Pageable): (page: Page<MemberTeamDto>)
    ensures page.content == SearchSimple(ms, c, p).content && page.pageable == p
    ensures InferredTotal(p, |page.content|).Some? ==> page.total == SearchSimple(ms, c, p).total
    ensures InferredTotal(p, |page.content|).None? ==> page.total == |Matching(LeftJoin(ms), c)|
    ensures page.total >= SearchSimple(ms, c, p).total
  {
    FetchMemberCondIsMatching(InnerJoin(ms), c);
    InnerMatchesNoMoreThanLeft(ms, c);
    var inner := Matching(InnerJoin(ms), c);
    InferredTotalIsExact(inner, p);
    var contents := Slice(Fetch(InnerJoin(ms), MemberCond(c)), p.Offset(), p.pageSize);
    GetPage(contents, p, () => LeftJoinCount(ms, c))
  }

  /** Spring Data's `PageImpl` would replace a total that is smaller than the end of a
      non-empty page; for both paged searches it leaves the total as computed. */
  lemma PageImplKeepsTotals(ms: seq<Member>, c: SearchCondition, p: Pageable)
    ensures var page := SearchSimple(ms, c, p); PageImplTotal(page.content, p, page.total) == page.total
    ensures var page := SearchComplex(ms, c, p); PageImplTotal(page.content, p, page.total) == page.total
  {
  }

  /** When no team-less member is selected, the as-written `searchComplex` agrees with
      `searchSimple` on every page. */
  lemma SearchComplexExactWithoutTeamless(ms: seq<Member>, c: SearchCondition, p: Pageable)
    requires Teamless(Matching(LeftJoin(ms), c)) == []
    ensures SearchComplex(ms, c, p) == SearchSimple(ms, c, p)
  {
    InnerMatchesNoMoreThanLeft(ms, c);
  }

  /** A first page with room to spare is the whole result: `searchComplex` then infers its
      total without counting, and agrees with `searchSimple`. */
  lemma ShortFirstPageNeedsNoCount(ms: seq<Member>, c: SearchCondition, p: Pageable)
    requires p.Offset() == 0 && |Matching(InnerJoin(ms), c)| < p.pageSize
    ensures InferredTotal(p, |SearchComplex(ms, c, p).content|) == Some(|Matching(InnerJoin(ms), c)|)
    ensures SearchComplex(ms, c, p) == SearchSimple(ms, c, p)
  {
  }

  /** The bounds of `ageGoe` and `ageLoe` are inclusive: with `ageGoe = 20, ageLoe = 30` a
      member with a team aged exactly 30 is found. */
  lemma AgeBoundsAreInclusive(ms: seq<Member>, m: Member)
    requires m in ms && m.team.Some? && m.age == 30
    ensures Project(m) in Search(ms, SearchCondition(None, None, Some(20), Some(30)))
  {
  }

  /** The as-written `searchComplex` over one member with a team and one without, no
      criterion and pages of one row: the first page shows one row, and the total says two,
      although no page will ever show the second member. */
  lemma SearchComplexCountsTeamlessMembers()
    ensures var ms := [Member(1, "member1", 10, Some(Team(1, "teamA"))), Member(2, "member2", 20, None)];
            var c := SearchCondition(None, None, None, None);
            var p := Pageable(0, 1);
            && |SearchComplex(ms, c, p).content| == 1
            && SearchComplex(ms, c, p).total == 2
            && SearchSimple(ms, c, p).total == 1
  {
    var ms := [Member(1, "member1", 10, Some(Team(1, "teamA"))), Member(2, "member2", 20, None)];
    var c := SearchCondition(None, None, None, None);
    NoCriterionMatchesAll(InnerJoin(ms), c);
    NoCriterionMatchesAll(LeftJoin(ms), c);
    assert InnerJoin(ms) == [Project(ms[0])] by {
      assert ms[1..][1..] == [];
    }
  }

  /** `searchComplex` with the count query joined as the content query is (`member join
      team`): the inferred and the counted totals then both equal the number of selected rows. */
  function SearchComplexInnerCount(ms: seq<Member>, c: SearchCondition, p: Pageable): (page: Page<MemberTeamDto>)
    ensures page == SearchSimple(ms, c, p)
  {
    FetchMemberCondIsMatching(InnerJoin(ms), c);
    var inner := Matching(InnerJoin(ms), c);
    GetPageTotalIsExact(inner, p, () => |inner|);
    var contents := Slice(Fetch(InnerJoin(ms), MemberCond(c)), p.Offset(), p.pageSize);
    GetPage(contents, p, () => |Fetch(InnerJoin(ms), MemberCond(c))|)
  }
}
