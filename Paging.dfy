/**
 * Page arithmetic of the art table: the fixed page size, the global rank of a
 * row, the footer's "Showing from to to" range, the paginator's `first` offset
 * and the conversion of the paginator's 0-based page index to the 1-based page.
 */
module Paging {
  import opened Wrappers

  /** `rowsPerPage`: every page holds at most this many rows. */
  const RowsPerPage: int := 12

  /** 1-based position, across all pages, of the row at 0-based `index` on 1-based `page`. */
  function Rank(page: int, index: int): (r: int)
    ensures r == TableFirst(page) + index + 1
    ensures page >= 1 && index >= 0 ==> r >= 1
  {
    (page - 1) * RowsPerPage + index + 1
  }

  /** The page a rank falls on (inverse of `Rank`, first component). */
  function PageOf(rank: int): int
    requires rank >= 1
  {
    (rank - 1) / RowsPerPage + 1
  }

  /** The 0-based offset on its page of a rank (inverse of `Rank`, second component). */
  function OffsetOf(rank: int): int
    requires rank >= 1
  {
    (rank - 1) % RowsPerPage
  }

  /** Two worked examples: the first row of page 1 and the sixth row of page 3. */
  lemma RankExamples()
    ensures Rank(1, 0) == 1
    ensures Rank(3, 5) == 30
  {
  }

  /** Ranks on one page are consecutive, and page `p + 1` continues where page `p` ends. */
  lemma RanksConsecutive(page: int, index: int)
    ensures Rank(page, index + 1) == Rank(page, index) + 1
    ensures Rank(page + 1, 0) == Rank(page, RowsPerPage - 1) + 1
  {
  }

  /**
   * Ranks are strictly increasing in (page, index) order: a later row on the same
   * page, or any row on a later page, has a larger rank.
   */
  lemma {:induction false} RanksIncrease(p: int, i: int, q: int, j: int)
    requires 0 <= i < RowsPerPage && 0 <= j < RowsPerPage
    requires p < q || (p == q && i < j)
    ensures Rank(p, i) < Rank(q, j)
  {
    if p < q {
      assert (q - 1) * RowsPerPage - (p - 1) * RowsPerPage == (q - p) * RowsPerPage;
      assert (q - p) * RowsPerPage >= RowsPerPage;
    }
  }

  /** Every row slot (page >= 1, 0 <= index < 12) has a rank >= 1 that maps back to it. */
  lemma RankRoundTrip(page: int, index: int)
    requires page >= 1 && 0 <= index < RowsPerPage
    ensures Rank(page, index) >= 1
    ensures PageOf(Rank(page, index)) == page
    ensures OffsetOf(Rank(page, index)) == index
  {
    var r := Rank(page, index);
    assert r - 1 == (page - 1) * RowsPerPage + index;
    DivModUnique(r - 1, page - 1, index);
  }

  /** Every rank >= 1 is the rank of exactly the slot it maps to. */
  lemma RankCovers(rank: int)
    requires rank >= 1
    ensures PageOf(rank) >= 1 && 0 <= OffsetOf(rank) < RowsPerPage
    ensures Rank(PageOf(rank), OffsetOf(rank)) == rank
  {
  }

  /** Quotient and remainder by the page size are unique. */
  lemma DivModUnique(n: int, q: int, r: int)
    requires 0 <= r < RowsPerPage && n == q * RowsPerPage + r
    ensures n / RowsPerPage == q && n % RowsPerPage == r
  {
  }

  /** First rank shown in the footer, `(page - 1) * rowsPerPage + 1`. */
  function FooterFrom(page: int): (r: int)
    ensures r == TableFirst(page) + 1
    ensures page >= 1 ==> r >= 1
  {
    (page - 1) * RowsPerPage + 1
  }

  /** Last rank shown in the footer, `min(page * rowsPerPage, totalRecords)`. */
  function FooterTo(page: int, totalRecords: int): (r: int)
    ensures r <= page * RowsPerPage && r <= totalRecords
    ensures r == page * RowsPerPage || r == totalRecords
  {
    if page * RowsPerPage <= totalRecords then page * RowsPerPage else totalRecords
  }

  /**
   * The footer range is exactly the ranks of the page's slots that exist in a
   * record set of `totalRecords` rows: a slot's rank is inside the range iff it is
   * at most `totalRecords`, and every rank in the range belongs to a slot of `page`.
   */
  lemma {:induction false} FooterRangeIsPageSlots(page: int, totalRecords: int)
    requires page >= 1
    ensures FooterFrom(page) == Rank(page, 0)
    ensures forall i :: 0 <= i < RowsPerPage ==>
      (FooterFrom(page) <= Rank(page, i) <= FooterTo(page, totalRecords) <==> Rank(page, i) <= totalRecords)
    ensures forall r :: FooterFrom(page) <= r <= FooterTo(page, totalRecords) ==>
      r <= totalRecords && PageOf(r) == page && Rank(page, OffsetOf(r)) == r
  {
    forall r | FooterFrom(page) <= r <= FooterTo(page, totalRecords)
      ensures r <= totalRecords && PageOf(r) == page && Rank(page, OffsetOf(r)) == r
    {
      var i := r - FooterFrom(page);
      assert r == Rank(page, i);
      RankRoundTrip(page, i);
    }
  }

  /** When the page is full, the footer shows exactly `RowsPerPage` ranks. */
  lemma FullPageFooter(page: int, totalRecords: int)
    requires page >= 1 && page * RowsPerPage <= totalRecords
    ensures FooterTo(page, totalRecords) - FooterFrom(page) + 1 == RowsPerPage
    ensures FooterTo(page, totalRecords) == Rank(page, RowsPerPage - 1)
  {
  }

  /** The paginator's `first`: the number of records on the pages before `page`. */
  function TableFirst(page: int): (r: int)
    ensures page >= 1 ==> r >= 0
    ensures r % RowsPerPage == 0
  {
    (page - 1) * RowsPerPage
  }

  /**
   * The 1-based page set by the paginator's page event, `(e.page || 0) + 1`:
   * a missing page index counts as 0.
   */
  function PageFromEvent(eventPage: Option<nat>): (page: int)
    ensures page >= 1
    ensures TableFirst(page) == (if eventPage.Some? then eventPage.value else 0) * RowsPerPage
  {
    match eventPage
    case None => 1
    case Some(p) => p + 1
  }

  /**
   * The page conversions agree: the event page is always >= 1, the first row of
   * a page sits just after `TableFirst` records, and the 0-based page index the
   * paginator derives from `first` leads back to the same page.
   */
  lemma {:induction false} PageConversionRoundTrip(page: int, eventPage: Option<nat>)
    requires page >= 1
    ensures PageFromEvent(eventPage) >= 1
    ensures Rank(page, 0) == TableFirst(page) + 1
    ensures PageFromEvent(Some(TableFirst(page) / RowsPerPage)) == page
    ensures eventPage.Some? ==> TableFirst(PageFromEvent(eventPage)) == eventPage.value * RowsPerPage
  {
    DivModUnique(TableFirst(page), page - 1, 0);
  }
}
