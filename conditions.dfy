/** The dynamic search filter: the four condition builders, the predicate trees QueryDSL
    builds from them, and the three ways the repositories compose them into one `where`
    clause. Both repository classes carry identical copies of the builders and of
    `memberCond`; the model has one. */
module Conditions {
  import opened Wrappers
  import opened Text
  import opened Entities

  /** `MemberSearchCondition`: every criterion may be null. */
  datatype SearchCondition = SearchCondition(
    username: Option<string>, teamName: Option<string>, ageGoe: Option<int>, ageLoe: Option<int>)

  /** One predicate fragment, as a condition builder returns it. */
  datatype Fragment =
    | UsernameEq(name: string)       // member.username.eq(name)
    | TeamNameContains(part: string) // team.name.contains(part)
    | AgeGoe(min: int)               // member.age.goe(min)
    | AgeLoe(max: int)               // member.age.loe(max)

  /** A QueryDSL boolean expression: a fragment or the `Ops.AND` of two expressions. */
  datatype Predicate = Frag(fragment: Fragment) | And(left: Predicate, right: Predicate)

  /** Whether the data store keeps a joined row under one fragment. A `contains` on the
      null team name of an unmatched left join is unknown in SQL, so the row is dropped. */
  predicate Holds(f: Fragment, row: MemberTeamDto) {
    match f
    case UsernameEq(name) => row.username == name
    case TeamNameContains(part) => row.teamName.Some? && IsSubstring(part, row.teamName.value)
    case AgeGoe(min) => row.age >= min
    case AgeLoe(max) => row.age <= max
  }

  predicate Eval(p: Predicate, row: MemberTeamDto) {
    match p
    case Frag(f) => Holds(f, row)
    case And(l, r) => Eval(l, row) && Eval(r, row)
  }

  /** A `where` argument that is null adds no restriction; otherwise the row must satisfy it. */
  predicate Admits(where: Option<Predicate>, row: MemberTeamDto) {
    where.None? || Eval(where.value, row)
  }

  /** The reference meaning of a search condition, written without any builder: each
      criterion that has text (or, for the ages, is present) constrains the row, and
      the age bounds are inclusive. */
  predicate Accepts(c: SearchCondition, row: MemberTeamDto) {
    && (HasText(c.username) ==> row.username == c.username.value)
    && (HasText(c.teamName) ==> row.teamName.Some? && IsSubstring(c.teamName.value, row.teamName.value))
    && (c.ageGoe.Some? ==> row.age >= c.ageGoe.value)
    && (c.ageLoe.Some? ==> row.age <= c.ageLoe.value)
  }

  /** A condition none of whose criteria takes part in the search. */
  predicate NoCriterion(c: SearchCondition) {
    !HasText(c.username) && !HasText(c.teamName) && c.ageGoe.None? && c.ageLoe.None?
  }

  // ---------------------------------------------------------------- condition builders

  /** `usernameCond`: an exact-equality fragment when the name has text, else null. */
  function UsernameCond(username: Option<string>): (r: Option<Fragment>)
    ensures r.Some? <==> HasText(username)
    ensures r.Some? ==> forall row :: Holds(r.value, row) <==> row.username == username.value
  {
    if HasText(username) then Some(UsernameEq(username.value)) else None
  }

  /** `teamNameCond`: a substring fragment on the team name when the text has text, else null. */
  function TeamNameCond(teamName: Option<string>): (r: Option<Fragment>)
    ensures r.Some? <==> HasText(teamName)
    ensures r.Some? ==> forall row :: Holds(r.value, row) <==>
      row.teamName.Some? && exists i :: 0 <= i <= |row.teamName.value| && teamName.value <= row.teamName.value[i..]
  {
    if HasText(teamName) then Some(TeamNameContains(teamName.value)) else None
  }

  /** `ageGoeCond`: an inclusive lower bound when one is given, else null. */
  function AgeGoeCond(ageGoe: Option<int>): (r: Option<Fragment>)
    ensures r.Some? <==> ageGoe.Some?
    ensures r.Some? ==> forall row :: Holds(r.value, row) <==> row.age >= ageGoe.value
  {
    if ageGoe.Some? then Some(AgeGoe(ageGoe.value)) else None
  }

  /** `ageLoeCond`: an inclusive upper bound when one is given, else null. */
  function AgeLoeCond(ageLoe: Option<int>): (r: Option<Fragment>)
    ensures r.Some? <==> ageLoe.Some?
    ensures r.Some? ==> forall row :: Holds(r.value, row) <==> row.age <= ageLoe.value
  {
    if ageLoe.Some? then Some(AgeLoe(ageLoe.value)) else None
  }

  /** The four builder results in the order every call site lists them. */
  function Slots(c: SearchCondition): seq<Option<Fragment>> {
    [UsernameCond(c.username), TeamNameCond(c.teamName), AgeGoeCond(c.ageGoe), AgeLoeCond(c.ageLoe)]
  }

  /** The non-null entries of a list of builder results, in order. */
  function Present(slots: seq<Option<Fragment>>): (fs: seq<Fragment>)
    ensures |fs| <= |slots|
  {
    if slots == [] then []
    else if slots[0].Some? then [slots[0].value] + Present(slots[1..])
    else Present(slots[1..])
  }

  /** The list `memberCond` accumulates. */
  function Fragments(c: SearchCondition): seq<Fragment> {
    Present(Slots(c))
  }

  /** `memberCond`, lines that fill the `ArrayList`: each non-null builder result is
      appended in turn, in the order username, team name, lower age, upper age. */
  method CollectFragments(c: SearchCondition) returns (expressions: seq<Fragment>)
    ensures expressions == Fragments(c)
    ensures |expressions| <= 4
    ensures forall row :: (forall f :: f in expressions ==> Holds(f, row)) <==> Accepts(c, row)
  {
    var usernameCond := UsernameCond(c.username);
    var teamNameCond := TeamNameCond(c.teamName);
    var ageGoeCond := AgeGoeCond(c.ageGoe);
    var ageLoeCond := AgeLoeCond(c.ageLoe);

    expressions := [];
    if usernameCond.Some? {
      expressions := expressions + [usernameCond.value];
    }
    if teamNameCond.Some? {
      expressions := expressions + [teamNameCond.value];
    }
    if ageGoeCond.Some? {
      expressions := expressions + [ageGoeCond.value];
    }
    if ageLoeCond.Some? {
      expressions := expressions + [ageLoeCond.value];
    }
    FragmentsShape(c);
    assert expressions == Fragments(c);
    assert forall row :: Admits(AllOf(expressions), row) <==> Accepts(c, row);
  }

  // ------------------------------------------------------------------ composition

  /** The null-skipping AND shared by `BooleanBuilder.and`, `BooleanExpression.and` and the
      way a query adds each `where` argument: a null side is dropped, and two expressions
      become `left AND right`. */
  function AndOpt(acc: Option<Predicate>, next: Option<Predicate>): (r: Option<Predicate>)
    ensures r.None? <==> acc.None? && next.None?
    ensures forall row :: Admits(r, row) <==> Admits(acc, row) && Admits(next, row)
  {
    match (acc, next)
    case (None, _) => next
    case (Some(_), None) => acc
    case (Some(a), Some(b)) => Some(And(a, b))
  }

  /** `Expressions.allOf(exprs)`, continuing from `acc`: `rv = rv == null ? b : rv.and(b)`. */
  function AllOfFrom(acc: Option<Predicate>, exprs: seq<Fragment>): (r: Option<Predicate>)
    decreases |exprs|
  {
    if exprs == [] then acc
    else AllOfFrom(AndOpt(acc, Some(Frag(exprs[0]))), exprs[1..])
  }

  /** `Expressions.allOf(exprs)`: null exactly for an empty array; otherwise it admits a
      row iff every fragment of the array holds of it. */
  function AllOf(exprs: seq<Fragment>): (r: Option<Predicate>)
    ensures r.None? <==> exprs == []
    ensures forall row :: Admits(r, row) <==> forall f :: f in exprs ==> Holds(f, row)
  {
    AllOfFromSound(None, exprs);
    AllOfFrom(None, exprs)
  }

  /** `where(o1, …, on)`: the arguments are added one by one, null ones skipped. */
  function WhereFrom(acc: Option<Predicate>, args: seq<Option<Fragment>>): (r: Option<Predicate>)
    decreases |args|
  {
    if args == [] then acc
    else WhereFrom(AndOpt(acc, Lift(args[0])), args[1..])
  }

  /** A builder result as a `where` argument. */
  function Lift(slot: Option<Fragment>): Option<Predicate> {
    if slot.Some? then Some(Frag(slot.value)) else None
  }

  lemma WhereOfFour(a: Option<Fragment>, b: Option<Fragment>, c: Option<Fragment>, d: Option<Fragment>)
    ensures Where([a, b, c, d]) == AndOpt(AndOpt(AndOpt(AndOpt(None, Lift(a)), Lift(b)), Lift(c)), Lift(d))
  {
    var v1 := AndOpt(None, Lift(a));
    var v2 := AndOpt(v1, Lift(b));
    var v3 := AndOpt(v2, Lift(c));
    assert [a, b, c, d][1..] == [b, c, d];
    assert [b, c, d][1..] == [c, d];
    assert [c, d][1..] == [d];
    assert [d][1..] == [];
    calc {
      Where([a, b, c, d]);
      WhereFrom(v1, [b, c, d]);
      WhereFrom(v2, [c, d]);
      WhereFrom(v3, [d]);
      WhereFrom(AndOpt(v3, Lift(d)), []);
    }
  }

  /** `where(o1, …, on)` from an empty clause: the same expression tree as `allOf` of the
      non-null arguments, so it too is null iff every argument is null. */
  function Where(args: seq<Option<Fragment>>): (r: Option<Predicate>)
    ensures r == AllOf(Present(args))
  {
    WhereFromIsAllOfFrom(None, args);
    WhereFrom(None, args)
  }

  /** `memberCond(username, teamName, ageGoe, ageLoe)`: `allOf` of the accumulated list. It
      is null iff no criterion takes part, and admits a row iff the condition accepts it. */
  function MemberCond(c: SearchCondition): (r: Option<Predicate>)
    ensures r.None? <==> NoCriterion(c)
    ensures forall row :: Admits(r, row) <==> Accepts(c, row)
  {
    FragmentsShape(c);
    AllOf(Fragments(c))
  }

  /** `allOf` accepts a row iff every fragment of the array accepts it, and is null
      exactly when the array is empty. */
  lemma {:induction false} AllOfFromSound(acc: Option<Predicate>, exprs: seq<Fragment>)
    ensures AllOfFrom(acc, exprs).None? <==> acc.None? && exprs == []
    ensures forall row :: Admits(AllOfFrom(acc, exprs), row) <==>
      Admits(acc, row) && forall i :: 0 <= i < |exprs| ==> Holds(exprs[i], row)
    decreases |exprs|
  {
    if exprs != [] {
      AllOfFromSound(AndOpt(acc, Some(Frag(exprs[0]))), exprs[1..]);
      assert forall i :: 1 <= i < |exprs| ==> exprs[1..][i - 1] == exprs[i];
    }
  }

  /** Passing the builder results to `where` one by one builds the very expression tree
      that `allOf` builds from the non-null ones: the two call shapes are the same query. */
  lemma {:induction false} WhereFromIsAllOfFrom(acc: Option<Predicate>, args: seq<Option<Fragment>>)
    ensures WhereFrom(acc, args) == AllOfFrom(acc, Present(args))
    decreases |args|
  {
    if args != [] {
      WhereFromIsAllOfFrom(AndOpt(acc, Lift(args[0])), args[1..]);
    }
  }

  /** The varargs `where(usernameCond(..), teamNameCond(..), ageGoeCond(..), ageLoeCond(..))`
      and the single argument `memberCond(..)` yield the same expression for every condition. */
  lemma WhereOfSlotsIsMemberCond(c: SearchCondition)
    ensures Where(Slots(c)) == MemberCond(c)
  {
    WhereFromIsAllOfFrom(None, Slots(c));
  }

  /** `memberCond` keeps exactly the non-null builder results, in source order, at most four. */
  lemma FragmentsShape(c: SearchCondition)
    ensures |Fragments(c)| <= 4
    ensures Fragments(c) == Head(UsernameCond(c.username)) + Head(TeamNameCond(c.teamName))
                          + Head(AgeGoeCond(c.ageGoe)) + Head(AgeLoeCond(c.ageLoe))
  {
    PresentOfFour(UsernameCond(c.username), TeamNameCond(c.teamName), AgeGoeCond(c.ageGoe), AgeLoeCond(c.ageLoe));
  }

  lemma PresentOfFour(a: Option<Fragment>, b: Option<Fragment>, c: Option<Fragment>, d: Option<Fragment>)
    ensures Present([a, b, c, d]) == Head(a) + Head(b) + Head(c) + Head(d)
  {
    PresentCons(a, [b, c, d]);
    PresentCons(b, [c, d]);
    PresentCons(c, [d]);
    PresentCons(d, []);
    assert [a, b, c, d] == [a] + [b, c, d];
    assert [b, c, d] == [b] + [c, d];
    assert [c, d] == [c] + [d];
    assert [d] == [d] + [];
  }

  /** The contribution of one builder result to the accumulated list. */
  function Head(slot: Option<Fragment>): seq<Fragment> {
    if slot.Some? then [slot.value] else []
  }

  lemma PresentCons(slot: Option<Fragment>, rest: seq<Option<Fragment>>)
    ensures Present([slot] + rest) == Head(slot) + Present(rest)
  {
    assert ([slot] + rest)[1..] == rest;
  }

  /** With no criterion, `memberCond` is null and the query is not filtered at all. */
  lemma NoCriterionAdmitsAll(c: SearchCondition, row: MemberTeamDto)
    requires NoCriterion(c)
    ensures MemberCond(c) == None
    ensures Admits(MemberCond(c), row)
  {
    FragmentsShape(c);
  }

  /** An empty or whitespace-only text criterion behaves exactly as an absent one. */
  lemma BlankTextIsAbsent(c: SearchCondition, blank: string)
    requires forall i :: 0 <= i < |blank| ==> IsWhitespace(blank[i])
    ensures MemberCond(c.(username := Some(blank))) == MemberCond(c.(username := None))
    ensures MemberCond(c.(teamName := Some(blank))) == MemberCond(c.(teamName := None))
  {
  }

  // ---------------------------------------------------------------- BooleanBuilder

  /** QueryDSL's `BooleanBuilder`: a mutable holder of the expression built so far, null
      until the first `and`. */
  class BooleanBuilder {
    var value: Option<Predicate>

    constructor ()
      ensures value == None
    {
      value := None;
    }

    /** `and(right)`: the held expression becomes `value AND right`, or `right` if none. */
    method AndWith(right: Predicate)
      modifies this
      ensures value == AndOpt(old(value), Some(right))
      ensures forall row :: Admits(value, row) <==> Admits(old(value), row) && Eval(right, row)
    {
      value := AndOpt(value, Some(right));
    }
  }
}
