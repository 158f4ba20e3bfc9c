/** Paging: the request (`Pageable`), the page returned (`Page`), the `offset`/`limit`
    slice the store applies, and the rule by which Spring Data's
    `PageableExecutionUtils.getPage` skips the count query when the page is provably the last. */
module Paging {
  import opened Wrappers

  /** `PageRequest.of(pageNumber, pageSize)`. */
  datatype Pageable = Pageable(pageNumber: nat, pageSize: nat) {
    /** `getOffset()`: the index of the first row of the page. */
    function Offset(): (r: nat)
      ensures r == 0 <==> pageNumber == 0 || pageSize == 0
      ensures pageSize > 0 ==> r >= pageNumber
      ensures pageNumber > 0 ==> r >= pageSize
    {
      pageNumber * pageSize
    }
  }

  /** Page `n + 1` starts right where page `n` ends, so the pages of one size cover the
      rows without gap or overlap. */
  lemma ConsecutivePagesAbut(n: nat, size: nat)
    ensures Pageable(n + 1, size).Offset() == Pageable(n, size).Offset() + size
  {
  }

  /** `Page<T>`: the content, the request it answers, and the total number of rows. */
  datatype Page<T> = Page(content: seq<T>, pageable: Pageable, total: nat)

  /** `.offset(offset).limit(limit)` applied to an ordered result: the rows at positions
      `offset` up to (excluding) `offset + limit`, fewer at the end, none past the end. */
  function Slice<T>(s: seq<T>, offset: nat, limit: nat): (r: seq<T>)
    ensures |r| <= limit
    ensures offset >= |s| ==> r == []
    ensures offset < |s| ==> |r| == if offset + limit <= |s| then limit else |s| - offset
    ensures forall i :: 0 <= i < |r| ==> offset + i < |s| && r[i] == s[offset + i]
  {
    if offset >= |s| then []
    else if offset + limit <= |s| then s[offset..offset + limit]
    else s[offset..]
  }

  /** The total `new PageImpl<>(content, pageable, total)` reports: when the content is
      non-empty and the page would reach past `total`, it reports `offset + |content|`
      instead. */
  function PageImplTotal<T>(content: seq<T>, p: Pageable, total: nat): (r: nat)
    ensures content == [] || p.Offset() + p.pageSize <= total ==> r == total
    ensures content != [] && p.Offset() + p.pageSize > total ==> r == p.Offset() + |content|
  {
    if content != [] && p.Offset() + p.pageSize > total then p.Offset() + |content| else total
  }

  /** The total `getPage` infers without counting, when the content proves the page is the
      last one: on the first page a content shorter than the page size, on a later page a
      non-empty content shorter than the page size. `None` means the count query must run. */
  function InferredTotal(p: Pageable, contentSize: nat): (r: Option<nat>)
    ensures r.Some? ==> contentSize < p.pageSize && r.value == p.Offset() + contentSize
    ensures r.None? <==> contentSize >= p.pageSize || (p.Offset() > 0 && contentSize == 0)
  {
    if p.Offset() == 0 then
      if p.pageSize > contentSize then Some(contentSize) else None
    else if contentSize != 0 && p.pageSize > contentSize then Some(p.Offset() + contentSize)
    else None
  }

  /** `PageableExecutionUtils.getPage(content, pageable, totalSupplier)`: the supplier (a
      deferred count query) is consulted only when the total cannot be inferred. */
  function GetPage<T>(content: seq<T>, p: Pageable, totalSupplier: () -> nat): (page: Page<T>)
    ensures page.content == content && page.pageable == p
    ensures InferredTotal(p, |content|).Some? ==> page.total == p.Offset() + |content|
    ensures InferredTotal(p, |content|).None? ==> page.total == totalSupplier()
  {
    match InferredTotal(p, |content|)
    case Some(total) => Page(content, p, total)
    case None => Page(content, p, totalSupplier())
  }

  /** Whenever the total is inferred, it is the size of the sequence the content was sliced
      from: the inference never replaces a count with a wrong number. */
  lemma InferredTotalIsExact<T>(s: seq<T>, p: Pageable)
    ensures var inferred := InferredTotal(p, |Slice(s, p.Offset(), p.pageSize)|);
            inferred.Some? ==> inferred.value == |s|
  {
  }

  /** When the inference applies, the page does not depend on what the count would return,
      so the deferred count need not run. */
  lemma InferredPageIgnoresCount<T>(content: seq<T>, p: Pageable, count1: () -> nat, count2: () -> nat)
    requires InferredTotal(p, |content|).Some?
    ensures GetPage(content, p, count1) == GetPage(content, p, count2)
  {
  }

  /** If the deferred count counts the sequence the content was sliced from, `getPage`
      reports that sequence's size whether or not it runs the count. */
  lemma GetPageTotalIsExact<T>(s: seq<T>, p: Pageable, count: () -> nat)
    requires count() == |s|
    ensures GetPage(Slice(s, p.Offset(), p.pageSize), p, count).total == |s|
  {
    InferredTotalIsExact(s, p);
  }
}
