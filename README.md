# Dynamic member search with optional criteria, and its paging

This project models the search layer of a member/team study application built on
QueryDSL and Spring Data JPA. A caller fills in a `MemberSearchCondition`. It has four
optional criteria: an exact user name, a piece of a team name, and a lower and an upper
age bound. The repository turns each criterion that is present into one predicate
fragment. It then composes the fragments into one `where` clause and runs that clause
over the members joined with their teams. The result is either a flat list of
`MemberTeamDto` rows or one page of them with a total.

The database is replaced by a sequence of members, in the order the store returns them.
Each member holds its team, or none. The two joins are functions of that sequence:
`InnerJoin` keeps the members that have a team, and `LeftJoin` keeps every member, with
null team columns where there is no team. A `where` clause is a QueryDSL expression
tree (`Conditions.Predicate`). Running it (`Query.Fetch`) keeps, in order, the rows the
tree admits. A null clause admits every row.

Modules, one per concern of the source:

- `Text`: Spring's `StringUtils.hasText` (present, non-empty, with at least one
  character that is not Java whitespace) and the case-sensitive substring test behind
  `contains`.
- `Entities`: `Member`, `Team`, the `MemberTeamDto` projection, and the two joins.
- `Conditions`: the four condition builders and `memberCond`, which accumulates its
  fragments in an `ArrayList` (modelled step by step in `CollectFragments`). It also
  holds the three composition shapes, which are `BooleanBuilder.and` (a class with a
  mutable `value`), `Expressions.allOf`, and `where(a, b, c, d)` with its null arguments
  skipped, together with `Accepts`, the reference meaning of a condition.
- `Query`: running a clause over joined rows, the reference filter `Matching`, and
  lemmas that relate the inner and the left join.
- `Paging`: `Pageable`, `Page`, the `offset`/`limit` slice, and the rule by which
  `PageableExecutionUtils.getPage` skips the deferred count query when the page is
  provably the last one.
- `MemberJpaRepository` and `MemberRepositoryImpl`: the searches of the two repository
  classes.

`MemberJpaRepository.java` and `MemberRepositoryImpl.java` each carry an identical copy
of the four builders and of `memberCond`. The model defines them once, in `Conditions`.

Main results:

- The gated builder (`searchByBuilder`), the varargs `where` (`searchNotNullEx`) and
  `memberCond` (`searchNullEx`, `search`) all build the same expression tree for every
  condition.
- That tree admits a row exactly when `Accepts` does.
- With no criterion, every row is returned. A blank text criterion is the same as an
  absent one.
- The left-joined builder search agrees with the inner-joined searches on members that
  have a team.
- The paged content is the slice `[offset, offset + pageSize)` of the selected rows.
- An inferred page total always equals the true count.

## Model

| member | source | states |
|---|---|---|
| `Text.HasText` | src/main/java/study/querydsl/repository/MemberJpaRepository.java:76 | the text gate holds iff the value is present and has a character that is not whitespace; so null, empty and whitespace-only all fail it |
| `Text.ContainsText` | src/main/java/study/querydsl/repository/MemberJpaRepository.java:140 | the scan for text holds iff some character of the string is not whitespace |
| `Text.IsSubstring` | src/main/java/study/querydsl/repository/MemberJpaRepository.java:80 | `contains(part)` holds iff `part` occurs at some position of the name |
| `Entities.Project` | src/main/java/study/querydsl/repository/MemberJpaRepository.java:90-95 | the row carries exactly the member's id, username and age and, iff it has a team, that team's id and name |
| `Entities.LeftJoin` | src/main/java/study/querydsl/repository/MemberJpaRepository.java:96-97 | `member left join team` gives one projected row per member, in order |
| `Entities.InnerJoin` | src/main/java/study/querydsl/repository/MemberJpaRepository.java:111-112 | `member join team` gives the projected rows of exactly the members that have a team, each with team columns |
| `Entities.InnerJoinIsTeamedLeftJoin` | src/main/java/study/querydsl/repository/MemberJpaRepository.java:130 | the inner join is the left join with its team-less rows dropped, in the same order |
| `Conditions.UsernameCond` | src/main/java/study/querydsl/repository/MemberJpaRepository.java:139-141 | a fragment is produced iff `hasText(username)`, and it holds of a row iff the username is exactly equal |
| `Conditions.TeamNameCond` | src/main/java/study/querydsl/repository/MemberJpaRepository.java:143-145 | a fragment is produced iff `hasText(teamName)`, and it holds iff the row has a team name containing the text |
| `Conditions.AgeGoeCond` | src/main/java/study/querydsl/repository/MemberJpaRepository.java:147-149 | a fragment is produced iff the bound is non-null, and it holds iff `age >= bound` (inclusive) |
| `Conditions.AgeLoeCond` | src/main/java/study/querydsl/repository/MemberJpaRepository.java:151-153 | a fragment is produced iff the bound is non-null, and it holds iff `age <= bound` (inclusive) |
| `Conditions.CollectFragments` | src/main/java/study/querydsl/repository/MemberJpaRepository.java:161-173 | the step-by-step `ArrayList` accumulation yields the present fragments, at most four, whose conjunction accepts exactly the rows the condition means |
| `Conditions.FragmentsShape` | src/main/java/study/querydsl/repository/MemberJpaRepository.java:155-173 | `memberCond`'s list is the present builder results in the order username, team name, lower age, upper age, never an absent one, at most four |
| `Conditions.AndOpt` | src/main/java/study/querydsl/repository/MemberJpaRepository.java:113-116 | AND with a null side drops that side, is null only when both sides are, and admits a row iff both sides admit it |
| `Conditions.AllOf` | src/main/java/study/querydsl/repository/MemberJpaRepository.java:175 | `allOf` is null iff given no fragment, and otherwise admits a row iff every fragment holds of it |
| `Conditions.AllOfFromSound` | src/main/java/study/querydsl/repository/MemberJpaRepository.java:175 | folding fragments into an expression already built keeps it null only if it was null and nothing is added, and admits a row iff the start and every fragment do |
| `Conditions.Where` | src/main/java/study/querydsl/repository/MemberJpaRepository.java:113-116 | the varargs `where` over optional arguments is the same expression as `allOf` of the non-null ones |
| `Conditions.WhereFromIsAllOfFrom` | src/main/java/study/querydsl/repository/MemberJpaRepository.java:112-116 | passing optional arguments to `where` one by one builds the same tree as `allOf` of the non-null ones |
| `Conditions.WhereOfSlotsIsMemberCond` | src/main/java/study/querydsl/repository/MemberJpaRepository.java:130-135 | `where(usernameCond, teamNameCond, ageGoeCond, ageLoeCond)` and `where(memberCond(..))` are the same expression for every condition |
| `Conditions.MemberCond` | src/main/java/study/querydsl/repository/MemberRepositoryImpl.java:130-151 | `memberCond` is null iff no criterion is present, and admits a row iff every present criterion accepts it |
| `Conditions.NoCriterionAdmitsAll` | src/main/java/study/querydsl/repository/MemberRepositoryImpl.java:151 | with all four criteria absent, `memberCond` is null and so admits every row |
| `Conditions.BlankTextIsAbsent` | src/main/java/study/querydsl/repository/MemberRepositoryImpl.java:114-119 | an empty or whitespace-only username or team name gives the same `memberCond` as a null one |
| `Conditions.BooleanBuilder.constructor` | src/main/java/study/querydsl/repository/MemberJpaRepository.java:75 | a new builder holds no expression |
| `Conditions.BooleanBuilder.AndWith` | src/main/java/study/querydsl/repository/MemberJpaRepository.java:77 | after `and(right)` the builder admits a row iff it admitted it before and `right` holds of it |
| `Query.Fetch` | src/main/java/study/querydsl/repository/MemberJpaRepository.java:98-99 | `where(..).fetch()` returns at most the rows it is given, and a row is in the result iff it is a joined row the clause admits |
| `Query.FetchMemberCondIsMatching` | src/main/java/study/querydsl/repository/MemberRepositoryImpl.java:45-51 | running `memberCond(c)` over joined rows keeps exactly the rows `c` accepts, in the store's order |
| `Query.NoCriterionMatchesAll` | src/main/java/study/querydsl/repository/MemberRepositoryImpl.java:47-51 | with no criterion the search returns every joined row |
| `Query.TeamedMatching` | src/main/java/study/querydsl/repository/MemberJpaRepository.java:97-98 | filtering and then dropping team-less rows is the same as dropping them and then filtering |
| `Query.InnerMatchesNoMoreThanLeft` | src/main/java/study/querydsl/repository/MemberRepositoryImpl.java:100-108 | the left-join count is at least the inner-join count, and exceeds it by exactly the selected team-less members |
| `Paging.Pageable.Offset` | src/main/java/study/querydsl/repository/MemberRepositoryImpl.java:70 | the offset is 0 iff the page number or the size is 0, is at least the page number for a positive size, and at least one page for a later page |
| `Paging.ConsecutivePagesAbut` | src/main/java/study/querydsl/repository/MemberRepositoryImpl.java:70-71 | page `n + 1` starts exactly where page `n` ends, so pages of one size neither overlap nor leave gaps |
| `Paging.Slice` | src/main/java/study/querydsl/repository/MemberRepositoryImpl.java:70-71 | `offset`/`limit` gives at most `limit` rows, each the row at `offset + i`, none when `offset` is past the end, and a full page whenever enough rows remain |
| `Paging.PageImplTotal` | src/main/java/study/querydsl/repository/MemberRepositoryImpl.java:76 | `PageImpl` keeps the given total unless the content is non-empty and the page reaches past it, in which case it reports `offset + size` |
| `Paging.InferredTotal` | src/main/java/study/querydsl/repository/MemberRepositoryImpl.java:111 | the total is inferred as `offset + size` iff the content is shorter than a page and is either on the first page or non-empty; otherwise the count must run |
| `Paging.GetPage` | src/main/java/study/querydsl/repository/MemberRepositoryImpl.java:111 | the page keeps the content; its total is the inferred one when inference applies, else the supplier's count |
| `Paging.InferredTotalIsExact` | src/main/java/study/querydsl/repository/MemberRepositoryImpl.java:110-111 | whenever the total is inferred from a slice of a sequence, it equals that sequence's size |
| `Paging.InferredPageIgnoresCount` | src/main/java/study/querydsl/repository/MemberRepositoryImpl.java:111 | when inference applies, the page is the same whatever the deferred count would return |
| `Paging.GetPageTotalIsExact` | src/main/java/study/querydsl/repository/MemberRepositoryImpl.java:111 | if the count counts the sequence the content was sliced from, the reported total is that size, counted or inferred |
| `MemberJpaRepository.BuildPredicate` | src/main/java/study/querydsl/repository/MemberJpaRepository.java:75-87 | the gated `BooleanBuilder` ends up holding the same expression as `memberCond`, and admits a row iff the condition accepts it |
| `MemberJpaRepository.BuilderIsAllOf` | src/main/java/study/querydsl/repository/MemberJpaRepository.java:76-87 | the builder's four gated `and` calls use the same gates in the same order as `memberCond`, giving the same tree |
| `MemberJpaRepository.SearchByBuilder` | src/main/java/study/querydsl/repository/MemberJpaRepository.java:74-100 | returns exactly the left-joined rows the condition accepts, in order |
| `MemberJpaRepository.SearchNullEx` | src/main/java/study/querydsl/repository/MemberJpaRepository.java:120-137 | returns exactly the inner-joined rows the condition accepts, in order |
| `MemberJpaRepository.SearchNotNullEx` | src/main/java/study/querydsl/repository/MemberJpaRepository.java:102-118 | returns the same rows as `searchNullEx` for every condition, namely the inner-joined rows the condition accepts |
| `MemberJpaRepository.ByBuilderAgreesOnTeamedMembers` | src/main/java/study/querydsl/repository/MemberJpaRepository.java:90-99 | the left-joined builder search with its team-less rows removed is exactly `searchNullEx`'s result |
| `MemberRepositoryImpl.Search` | src/main/java/study/querydsl/repository/MemberRepositoryImpl.java:36-51 | returns exactly the inner-joined rows the condition accepts, in order |
| `MemberRepositoryImpl.AgeBoundsAreInclusive` | src/main/java/study/querydsl/repository/MemberRepositoryImpl.java:47-50 | with `ageGoe = 20, ageLoe = 30` a member with a team aged exactly 30 is in the result |
| `MemberRepositoryImpl.FetchResults` | src/main/java/study/querydsl/repository/MemberRepositoryImpl.java:70-75 | `fetchResults` gives at most `limit` rows, none once `offset` reaches the total, a full page whenever enough rows remain, row `i` being selected row `offset + i`; the total counts all selected rows |
| `MemberRepositoryImpl.FetchResultsTotalIgnoresPage` | src/main/java/study/querydsl/repository/MemberRepositoryImpl.java:72-75 | the total of `fetchResults` is the same for every offset and limit |
| `MemberRepositoryImpl.SearchSimple` | src/main/java/study/querydsl/repository/MemberRepositoryImpl.java:55-77 | content is the slice `[offset, offset+pageSize)` of the selected rows, at most a page and empty once offset reaches the total; total is the count of all selected rows, independent of the page |
| `MemberRepositoryImpl.LeftJoinCount` | src/main/java/study/querydsl/repository/MemberRepositoryImpl.java:100-108 | the count query counts the left-joined rows the condition accepts |
| `MemberRepositoryImpl.SearchComplex` | src/main/java/study/querydsl/repository/MemberRepositoryImpl.java:80-112 | same content as `searchSimple`; total equals `searchSimple`'s when inferred, is the left-join count otherwise, and is never below `searchSimple`'s |
| `MemberRepositoryImpl.PageImplKeepsTotals` | src/main/java/study/querydsl/repository/MemberRepositoryImpl.java:76 | `PageImpl`'s adjustment of the total changes nothing for the pages of `searchSimple` and `searchComplex` |
| `MemberRepositoryImpl.SearchComplexExactWithoutTeamless` | src/main/java/study/querydsl/repository/MemberRepositoryImpl.java:100-111 | when no team-less member is selected, `searchComplex` returns the same page as `searchSimple` |
| `MemberRepositoryImpl.ShortFirstPageNeedsNoCount` | src/main/java/study/querydsl/repository/MemberRepositoryImpl.java:111 | a first page with fewer rows than the page size has its total inferred, equal to the true count, and matches `searchSimple` |
| `MemberRepositoryImpl.SearchComplexCountsTeamlessMembers` | src/main/java/study/querydsl/repository/MemberRepositoryImpl.java:100-111 | one member with a team, one without, no criterion, page size 1: the content has one row, and the total says 2 where `searchSimple` says 1 |
| `MemberRepositoryImpl.SearchComplexInnerCount` | src/main/java/study/querydsl/repository/MemberRepositoryImpl.java:100-111 | with the count query joined like the content query, the page equals `searchSimple`'s on every input |

## Findings

| source | as written | input that shows it | evidently intended | confidence | as-written member | corrected member |
|---|---|---|---|---|---|---|
| src/main/java/study/querydsl/repository/MemberRepositoryImpl.java:100-111 | the deferred count query left-joins the team, while the content query inner-joins it, so the count also takes in members without a team, which no page ever shows | members `[m1 with a team, m2 without]`, no criterion, page 0 of size 1: content `[m1]`, total 2 (`searchSimple` says 1) | the count covers the same rows the content is sliced from, so the total equals `searchSimple`'s | medium (not executed; the left join may have been meant as a cheaper count, and it agrees whenever every selected member has a team) | `MemberRepositoryImpl.SearchComplexCountsTeamlessMembers` | `MemberRepositoryImpl.SearchComplexInnerCount` |

The deferred-count strategy is meant to give an exact total. The code, as the table
shows, does not always do so. The model keeps `SearchComplex` as written and proves
where it agrees with `searchSimple` (`SearchComplexExactWithoutTeamless`,
`ShortFirstPageNeedsNoCount`).

## Left out

- Persistence plumbing: `save`, `findById`, `findAll`, `findAll_Querydsl`, `findByUsername`
  and `findByUsername_QueryDsl` (`MemberJpaRepository.java:41-72`). They are direct calls
  into the entity manager or a one-line query with no logic of their own.
- SQL generation, transactions, sessions, and lazy or fetch-join loading belong to the
  persistence runtime. The store is a sequence of members.
- Row order: the source gives no `orderBy`. The model takes the store's order to be the
  order of the member sequence, and takes it to be the same for every query.
- Integer widths: `Long` ids, `Integer` ages, the `long` offset and the `long` counts are
  unbounded integers. No value in these searches is computed by arithmetic that could
  wrap, except `offset = pageNumber * pageSize`, which is not modelled to wrap.
- Null username or team name stored in the database: the model keeps a member's username
  and a team's name non-null. A team name is absent only when a left join found no team,
  and then a `contains` on it does not hold, as in SQL.
- `contains` is modelled as case-sensitive substring matching. `LIKE` escaping and
  collation belong to the database.
- `Pageable.unpaged()` is not modelled, and a page size of 0 is not rejected.
  `PageRequest.of` rejects that size, and no proof depends on it.
- `Page` stores the content, request and total it is given. Spring Data's own
  adjustment of the total inside `PageImpl` is stated separately (`PageImplTotal`), and
  it is proved to leave the totals of both paged searches unchanged (`PageImplKeepsTotals`).
- `fetchResults` skipping the content query when the count is 0 has no observable
  effect, so it is not modelled.
- The `QueryDslBasicTest.java` helpers `searchMember1`, `searchMember2` and `memberValid`
  are tutorial code outside these repositories and are not part of this model. So are
  `MemberQueryRepository.java` and `InitData.java`.
- Ordering with nulls last, fetching exactly one row (`fetchOne`) and aggregation do not
  occur in the two repository classes and are not modelled.
