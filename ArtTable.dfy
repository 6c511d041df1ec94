/**
 * The art table component with its hook state lifted into fields. Network
 * loading is replaced by `PageLoaded`, which the caller invokes with what a
 * fetch returned.
 */
module ArtTableComponent {
  import opened Wrappers
  import opened Paging
  import opened Selection

  class ArtTable {
    /** `page`: the 1-based page being viewed. */
    var page: int
    /** `artworks`: the rows of the last page that loaded. */
    var rows: seq<Row>
    /** `virtualCount`: "select the first N records", across all pages. */
    var virtualCount: int
    /** `manualSelections`: per-row overrides of the virtual selection. */
    var overrides: Overrides

    ghost predicate Valid()
      reads this
    {
      page >= 1 && virtualCount >= 0
    }

    /** The initial state: page 1, nothing loaded, nothing selected. */
    constructor ()
      ensures Valid()
      ensures page == 1 && rows == [] && virtualCount == 0 && overrides == map[]
    {
      page := 1;
      rows := [];
      virtualCount := 0;
      overrides := map[];
    }

    /**
     * `getSelectionForCurrentPage`: the loaded rows the table shows as checked, in
     * page order; with distinct ids, a row is in it iff its override says so or,
     * having none, its rank is within the virtual count.
     */
    function CurrentSelection(): (sel: seq<Row>)
      reads this
      ensures |sel| <= |rows| && forall r :: r in sel ==> r in rows
      ensures DistinctIds(rows) ==> forall i :: 0 <= i < |rows| ==>
        (rows[i] in sel <==> Effective(page, i, rows[i].id, virtualCount, overrides))
    {
      if DistinctIds(rows) then DeriveSelects(page, rows, virtualCount, overrides); Derive(page, rows, virtualCount, overrides)
      else Derive(page, rows, virtualCount, overrides)
    }

    /**
     * `totalSelectionCount`: in a valid state the count is within the number of
     * overrides of the virtual count.
     */
    function SelectedCount(): (n: nat)
      reads this
      ensures Valid() ==> virtualCount - |overrides| <= n <= virtualCount + |overrides|
    {
      if virtualCount >= 0 then TotalSelectedBounds(virtualCount, overrides); TotalSelected(virtualCount, overrides)
      else TotalSelected(virtualCount, overrides)
    }

    /**
     * `handleCustomSubmit`: a missing or non-positive input changes nothing; a
     * positive one becomes the virtual count and clears every override.
     */
    method Submit(input: Option<int>)
      requires Valid()
      modifies this
      ensures Valid()
      ensures page == old(page) && rows == old(rows)
      ensures input.None? || input.value <= 0 ==>
        virtualCount == old(virtualCount) && overrides == old(overrides)
      ensures input.Some? && input.value > 0 ==>
        virtualCount == input.value && overrides == map[] && SelectedCount() == input.value
    {
      if input.None? || input.value <= 0 {
        return;
      }
      virtualCount := input.value;
      overrides := map[];
    }

    /**
     * The paginator's page event: the page becomes `(e.page || 0) + 1`. The rows of
     * the previous page stay loaded until `PageLoaded` replaces them.
     */
    method OnPage(eventPage: Option<nat>)
      requires Valid()
      modifies this
      ensures Valid()
      ensures page == PageFromEvent(eventPage)
      ensures rows == old(rows) && virtualCount == old(virtualCount) && overrides == old(overrides)
    {
      page := PageFromEvent(eventPage);
    }

    /**
     * A fetch that succeeded: its data, or no rows when the response carries none,
     * become the loaded rows. Responses are applied in the order they arrive.
     */
    method PageLoaded(data: Option<seq<Row>>)
      requires Valid()
      modifies this
      ensures Valid()
      ensures rows == data.GetOr([])
      ensures page == old(page) && virtualCount == old(virtualCount) && overrides == old(overrides)
    {
      rows := data.GetOr([]);
    }

    /**
     * `onSelectionChange`: the table reports its whole new checked set for the page;
     * every loaded row gets an override exactly where that set differs from the
     * implied state, and ids not on the page keep their entries.
     */
    method OnSelectionChange(selection: seq<Row>)
      requires Valid()
      modifies this
      ensures Valid()
      ensures page == old(page) && rows == old(rows) && virtualCount == old(virtualCount)
      ensures overrides == Reconciled(page, rows, virtualCount, old(overrides), PageIds(selection))
      ensures AgreeOutside(overrides, old(overrides), PageIds(rows))
      ensures DistinctIds(rows) ==> CurrentSelection() == CheckedRows(rows, PageIds(selection))
      ensures DistinctIds(rows) ==> Minimal(page, rows, virtualCount, overrides)
    {
      var newManual := overrides;
      var selectedIds := set a | a in selection :: a.id;
      var i := 0;
      while i < |rows|
        invariant 0 <= i <= |rows|
        invariant newManual == Reconciled(page, rows[..i], virtualCount, overrides, selectedIds)
      {
        var globalIndex := Rank(page, i);
        var isVirtuallySelected := globalIndex <= virtualCount;
        var isCurrentlyChecked := rows[i].id in selectedIds;
        if isCurrentlyChecked != isVirtuallySelected {
          newManual := newManual[rows[i].id := isCurrentlyChecked];
        } else {
          newManual := newManual - {rows[i].id};
        }
        assert rows[..i + 1][..i] == rows[..i];
        i := i + 1;
      }
      assert rows[..|rows|] == rows;
      if DistinctIds(rows) {
        DeriveAfterReconcile(page, rows, virtualCount, overrides, selectedIds);
        ReconciledEntries(page, rows, virtualCount, overrides, selectedIds);
      }
      overrides := newManual;
    }
  }
}
