/** Page arithmetic shared by the paginated listings (getTransactions,
    getReservations): `offset = (page - 1) * limit`, `OFFSET :offset ROWS
    FETCH NEXT :limit ROWS ONLY`, and `totalPages = Math.ceil(total / limit)`. */
module Paging {
  import opened Common

  function PageOffset(page: int, limit: int): (offset: int)
    ensures page >= 1 && limit >= 0 ==> offset >= 0
    ensures offset + limit == page * limit
  {
    (page - 1) * limit
  }

  /** `Math.ceil(total / limit)`; None stands for the NaN or Infinity that a
      zero limit gives (both become `null` in the JSON answer). */
  function TotalPages(total: nat, limit: int): (pages: Option<int>)
    ensures pages.None? <==> limit == 0
    ensures limit > 0 ==> pages.Some? && pages.value >= 0 && (pages.value == 0 <==> total == 0)
    ensures limit > 0 && total > 0 ==> (pages.value - 1) * limit < total <= pages.value * limit
    ensures limit < 0 ==> pages.Some? && pages.value <= 0
  {
    if limit == 0 then None
    else if limit > 0 then Some((total + limit - 1) / limit)
    else Some(-(total / -limit))
  }

  /** OFFSET / FETCH NEXT over the ordered rows; Oracle reads a negative
      offset or row count as zero. */
  function PageOf<T>(rows: seq<T>, offset: int, limit: int): (page: seq<T>)
    ensures |page| <= if limit < 0 then 0 else limit
    ensures var start := if offset < 0 then 0 else if offset > |rows| then |rows| else offset;
      |page| == (if limit < 0 then 0 else if start + limit > |rows| then |rows| - start else limit)
      && forall k :: 0 <= k < |page| ==> page[k] == rows[start + k]
  {
    var start := if offset < 0 then 0 else if offset > |rows| then |rows| else offset;
    var count := if limit < 0 then 0 else if start + limit > |rows| then |rows| - start else limit;
    rows[start..start + count]
  }

  /** With a positive limit, the row at position `i` is on exactly one page,
      page `i / limit + 1`, and that page is one of the `totalPages` pages. */
  lemma {:induction false} RowOnOnePage(total: nat, limit: int, i: int)
    requires limit > 0 && 0 <= i < total
    ensures var p := i / limit + 1;
      1 <= p && TotalPages(total, limit).Some? && p <= TotalPages(total, limit).value
      && PageOffset(p, limit) <= i < PageOffset(p, limit) + limit
    ensures forall q :: PageOffset(q, limit) <= i < PageOffset(q, limit) + limit ==> q == i / limit + 1
  {
    var d := i / limit;
    var n := TotalPages(total, limit).value;
    DivBounds(i, limit);
    assert PageOffset(d + 1, limit) == d * limit;
    if d >= n {
      MulMono(d, n, limit);
    }
    forall q | PageOffset(q, limit) <= i < PageOffset(q, limit) + limit
      ensures q == d + 1
    {
      PageUnique(q - 1, d, limit, i);
    }
  }

  /** With a positive limit, the row at position `i` is found on page
      `i / limit + 1`, at position `i % limit` of that page. */
  lemma {:induction false} RowOnItsPage<T>(rows: seq<T>, limit: int, i: int)
    requires limit > 0 && 0 <= i < |rows|
    ensures var page := PageOf(rows, PageOffset(i / limit + 1, limit), limit);
      i % limit < |page| && page[i % limit] == rows[i]
  {
    DivBounds(i, limit);
    assert PageOffset(i / limit + 1, limit) == (i / limit) * limit;
    assert i == (i / limit) * limit + i % limit;
  }

  lemma DivBounds(i: int, limit: int)
    requires limit > 0
    ensures (i / limit) * limit <= i < (i / limit) * limit + limit
  {
  }

  lemma MulMono(a: int, b: int, c: int)
    requires a >= b && c > 0
    ensures a * c >= b * c
  {
  }

  /** Two pages of the same positive size never share a row. */
  lemma PageUnique(a: int, b: int, limit: int, i: int)
    requires limit > 0
    requires a * limit <= i < a * limit + limit
    requires b * limit <= i < b * limit + limit
    ensures a == b
  {
    if a < b {
      MulMono(b, a + 1, limit);
    } else if b < a {
      MulMono(a, b + 1, limit);
    }
  }
}
