/**
 * The selection logic of the art table as pure functions of the lifted state:
 * which loaded rows count as selected, the total selected count, and how a new
 * checked set for the page becomes updates of the override map.
 */
module Selection {
  import opened Paging

  /** A loaded record; only its id matters to the selection logic. */
  datatype Row = Row(id: int)

  /** Overrides: row id to a forced selected (true) or forced deselected (false) state. */
  type Overrides = map<int, bool>

  predicate DistinctIds(rows: seq<Row>)
  {
    forall i, j :: 0 <= i < j < |rows| ==> rows[i].id != rows[j].id
  }

  function PageIds(rows: seq<Row>): set<int>
  {
    set r | r in rows :: r.id
  }

  /** `m1` and `m2` hold the same entry (or none) for every id outside `ids`. */
  ghost predicate AgreeOutside(m1: Overrides, m2: Overrides, ids: set<int>)
  {
    forall k :: k !in ids ==> (k in m1 <==> k in m2) && (k in m1 ==> m1[k] == m2[k])
  }

  /** The state the virtual count implies for the row at `index` on `page`. */
  predicate Implied(page: int, index: int, virtualCount: int)
    ensures Implied(page, index, virtualCount) <==> index < virtualCount - TableFirst(page)
  {
    Rank(page, index) <= virtualCount
  }

  /** The state a row is shown in: its override if it has one, else the implied state. */
  predicate Effective(page: int, index: int, id: int, virtualCount: int, overrides: Overrides)
    ensures id in overrides ==> (Effective(page, index, id, virtualCount, overrides) <==> overrides[id])
    ensures id !in overrides || overrides[id] == Implied(page, index, virtualCount) ==>
      (Effective(page, index, id, virtualCount, overrides) <==> Implied(page, index, virtualCount))
  {
    if id in overrides then overrides[id] else Implied(page, index, virtualCount)
  }

  // ---------------------------------------------------------------------------
  // Filtering by a mask: the index-aware `filter` of the selection.

  /** The positions of `mask` that hold `true`, in increasing order. */
  function KeptIndices(mask: seq<bool>): (ix: seq<int>)
    decreases |mask|
    ensures |ix| <= |mask|
    ensures forall k :: 0 <= k < |ix| ==> 0 <= ix[k] < |mask| && mask[ix[k]]
    ensures forall k, l :: 0 <= k < l < |ix| ==> ix[k] < ix[l]
    ensures forall i :: 0 <= i < |mask| && mask[i] ==> i in ix
  {
    if |mask| == 0 then []
    else
      var n := |mask| - 1;
      KeptIndices(mask[..n]) + (if mask[n] then [n] else [])
  }

  /** The elements of `s` whose position holds `true` in `mask`, in their order in `s`. */
  function Keep(s: seq<Row>, mask: seq<bool>): (r: seq<Row>)
    requires |mask| == |s|
    decreases |s|
    ensures |r| == |KeptIndices(mask)|
    ensures forall k :: 0 <= k < |r| ==> r[k] == s[KeptIndices(mask)[k]]
  {
    if |s| == 0 then []
    else
      var n := |s| - 1;
      var front := Keep(s[..n], mask[..n]);
      assert KeptIndices(mask) == KeptIndices(mask[..n]) + (if mask[n] then [n] else []);
      assert forall k :: 0 <= k < |front| ==> front[k] == s[KeptIndices(mask[..n])[k]];
      front + (if mask[n] then [s[n]] else [])
  }

  /** With distinct elements, an element is kept iff its position holds `true`. */
  lemma {:induction false} KeepMembers(s: seq<Row>, mask: seq<bool>)
    requires |mask| == |s| && DistinctIds(s)
    ensures forall i :: 0 <= i < |s| ==> (s[i] in Keep(s, mask) <==> mask[i])
  {
    var r, ix := Keep(s, mask), KeptIndices(mask);
    forall i | 0 <= i < |s|
      ensures s[i] in r <==> mask[i]
    {
      if mask[i] {
        var k :| 0 <= k < |ix| && ix[k] == i;
        assert r[k] == s[i];
      }
      if s[i] in r {
        var k :| 0 <= k < |r| && r[k] == s[i];
        assert s[ix[k]] == s[i];
        assert ix[k] == i;
      }
    }
  }

  /** The positions of an all-`true` mask are all of its positions. */
  lemma {:induction false} KeptIndicesAll(mask: seq<bool>)
    requires forall i :: 0 <= i < |mask| ==> mask[i]
    ensures |KeptIndices(mask)| == |mask|
    ensures forall k :: 0 <= k < |mask| ==> KeptIndices(mask)[k] == k
    decreases |mask|
  {
    if |mask| > 0 {
      var n := |mask| - 1;
      KeptIndicesAll(mask[..n]);
    }
  }

  /** A mask with every position `true` keeps everything. */
  lemma KeepAll(s: seq<Row>, mask: seq<bool>)
    requires |mask| == |s| && forall i :: 0 <= i < |mask| ==> mask[i]
    ensures Keep(s, mask) == s
  {
    KeptIndicesAll(mask);
  }

  /** A mask with every position `false` keeps nothing. */
  lemma {:induction false} KeepNone(s: seq<Row>, mask: seq<bool>)
    requires |mask| == |s| && forall i :: 0 <= i < |mask| ==> !mask[i]
    ensures Keep(s, mask) == []
    decreases |s|
  {
    if |s| > 0 {
      var n := |s| - 1;
      KeepNone(s[..n], mask[..n]);
    }
  }

  // ---------------------------------------------------------------------------
  // Deriving the page's selection (`getSelectionForCurrentPage`).

  /** The effective state of every loaded row, by position. */
  function SelectionMask(page: int, rows: seq<Row>, virtualCount: int, overrides: Overrides): seq<bool>
  {
    seq(|rows|, i requires 0 <= i < |rows| => Effective(page, i, rows[i].id, virtualCount, overrides))
  }

  /**
   * The loaded rows that count as selected, in page order: the k-th selected row is
   * the row at the k-th position whose effective state is selected.
   */
  function Derive(page: int, rows: seq<Row>, virtualCount: int, overrides: Overrides): (sel: seq<Row>)
    ensures |sel| <= |rows|
    ensures var ix := KeptIndices(SelectionMask(page, rows, virtualCount, overrides));
      |sel| == |ix| && forall k :: 0 <= k < |sel| ==> sel[k] == rows[ix[k]]
  {
    Keep(rows, SelectionMask(page, rows, virtualCount, overrides))
  }

  /**
   * A loaded row is selected exactly when its override says so, or, having no
   * override, when its rank is within the virtual count.
   */
  lemma DeriveSelects(page: int, rows: seq<Row>, virtualCount: int, overrides: Overrides)
    requires DistinctIds(rows)
    ensures forall i :: 0 <= i < |rows| ==>
      (rows[i] in Derive(page, rows, virtualCount, overrides) <==>
        if rows[i].id in overrides then overrides[rows[i].id] else Rank(page, i) <= virtualCount)
  {
    KeepMembers(rows, SelectionMask(page, rows, virtualCount, overrides));
  }

  /** With a virtual count of 0 and no overrides, nothing on any page is selected. */
  lemma DeriveNothing(page: int, rows: seq<Row>)
    requires page >= 1
    ensures Derive(page, rows, 0, map[]) == []
  {
    KeepNone(rows, SelectionMask(page, rows, 0, map[]));
  }

  /**
   * When the virtual count reaches the rank of the last loaded row (a full page, or
   * a short last page) and no loaded row has an override, every loaded row is selected.
   */
  lemma DeriveEverything(page: int, rows: seq<Row>, virtualCount: int, overrides: Overrides)
    requires (page - 1) * RowsPerPage + |rows| <= virtualCount
    requires forall r :: r in rows ==> r.id !in overrides
    ensures Derive(page, rows, virtualCount, overrides) == rows
  {
    var mask := SelectionMask(page, rows, virtualCount, overrides);
    forall i | 0 <= i < |rows| ensures mask[i] {
      assert rows[i] in rows;
    }
    KeepAll(rows, mask);
  }

  // ---------------------------------------------------------------------------
  // The total selected count (`totalSelectionCount`).

  /** The number of overrides that force `value`. */
  function ForcedCount(overrides: Overrides, value: bool): (n: nat)
    ensures n <= |overrides|
    ensures n == 0 <==> forall k :: k in overrides ==> overrides[k] != value
  {
    var forced := set k | k in overrides && overrides[k] == value;
    var other := set k | k in overrides && overrides[k] != value;
    assert forced + other == overrides.Keys && forced * other == {};
    assert |forced + other| == |forced| + |other|;
    ForcedNone(overrides, value);
    |forced|
  }

  /** No override forces `value` exactly when the set of those that do is empty. */
  lemma ForcedNone(overrides: Overrides, value: bool)
    ensures (set k | k in overrides && overrides[k] == value) == {} <==>
      forall k :: k in overrides ==> overrides[k] != value
  {
    var forced := set k | k in overrides && overrides[k] == value;
    if forall k :: k in overrides ==> overrides[k] != value {
      forall x ensures x !in forced {
        if x in overrides {
          assert overrides[x] != value;
        }
      }
    } else {
      var x :| x in overrides && overrides[x] == value;
      assert x in forced;
    }
  }

  /**
   * The selected count: the virtual count, plus the forced-selected rows, minus the
   * forced-deselected rows, floored at 0.
   */
  function TotalSelected(virtualCount: int, overrides: Overrides): (n: nat)
    ensures virtualCount + ForcedCount(overrides, true) - ForcedCount(overrides, false) >= 0 ==>
      n == virtualCount + ForcedCount(overrides, true) - ForcedCount(overrides, false)
    ensures virtualCount + ForcedCount(overrides, true) - ForcedCount(overrides, false) < 0 ==> n == 0
  {
    var raw := virtualCount + ForcedCount(overrides, true) - ForcedCount(overrides, false);
    if raw < 0 then 0 else raw
  }

  /** Every override forces exactly one of the two states. */
  lemma {:induction false} ForcedCountsPartition(overrides: Overrides)
    ensures ForcedCount(overrides, true) + ForcedCount(overrides, false) == |overrides|
  {
    var t := set k | k in overrides && overrides[k] == true;
    var f := set k | k in overrides && overrides[k] == false;
    assert t + f == overrides.Keys;
    assert t * f == {};
    assert |t + f| == |t| + |f|;
  }

  /** The count is within the number of overrides of the virtual count. */
  lemma TotalSelectedBounds(virtualCount: int, overrides: Overrides)
    requires virtualCount >= 0
    ensures TotalSelected(virtualCount, overrides) <= virtualCount + |overrides|
    ensures TotalSelected(virtualCount, overrides) >= virtualCount - |overrides|
  {
    ForcedCountsPartition(overrides);
  }

  /** Adding an override that forces `value` for a fresh id raises that count by one. */
  lemma {:induction false} ForcedCountAdd(overrides: Overrides, id: int, value: bool, w: bool)
    requires id !in overrides
    ensures ForcedCount(overrides[id := value], w) == ForcedCount(overrides, w) + (if value == w then 1 else 0)
  {
    var before := set k | k in overrides && overrides[k] == w;
    var m := overrides[id := value];
    var after := set k | k in m && m[k] == w;
    if value == w {
      assert after == before + {id};
    } else {
      assert after == before;
    }
  }

  /** Removing the override of `id` lowers the count of the state it forced by one. */
  lemma {:induction false} ForcedCountRemove(overrides: Overrides, id: int, w: bool)
    requires id in overrides
    ensures ForcedCount(overrides - {id}, w) == ForcedCount(overrides, w) - (if overrides[id] == w then 1 else 0)
  {
    var rest := overrides - {id};
    assert overrides == rest[id := overrides[id]];
    ForcedCountAdd(rest, id, overrides[id], w);
  }

  // ---------------------------------------------------------------------------
  // Reconciliation (`onSelectionChange`).

  /**
   * One step of the reconciliation loop: store the checked state of `id` where it
   * differs from the implied state, otherwise delete any entry for `id`.
   */
  function ReconcileStep(overrides: Overrides, id: int, implied: bool, checked: set<int>): (m: Overrides)
    ensures id in m <==> (id in checked) != implied
    ensures id in m ==> m[id] == (id in checked)
    ensures AgreeOutside(m, overrides, {id})
  {
    if (id in checked) != implied then overrides[id := id in checked] else overrides - {id}
  }

  /** The override map after the loop has visited every row of `rows`, in order. */
  function Reconciled(page: int, rows: seq<Row>, virtualCount: int, overrides: Overrides, checked: set<int>): (m: Overrides)
    decreases |rows|
    ensures AgreeOutside(m, overrides, PageIds(rows))
    ensures m.Keys <= overrides.Keys + PageIds(rows)
  {
    if |rows| == 0 then overrides
    else
      var n := |rows| - 1;
      assert rows == rows[..n] + [rows[n]];
      assert PageIds(rows) == PageIds(rows[..n]) + {rows[n].id};
      ReconcileStep(Reconciled(page, rows[..n], virtualCount, overrides, checked),
                    rows[n].id, Implied(page, n, virtualCount), checked)
  }

  /** Every loaded row with an override is shown in the opposite of its implied state. */
  ghost predicate Minimal(page: int, rows: seq<Row>, virtualCount: int, overrides: Overrides)
  {
    forall i :: 0 <= i < |rows| && rows[i].id in overrides ==>
      overrides[rows[i].id] != Implied(page, i, virtualCount)
  }

  /**
   * After reconciliation, a loaded row has an entry exactly when its checked state
   * differs from its implied state, and the entry is its checked state. So the map
   * holds no redundant entry for the page.
   */
  lemma {:induction false} ReconciledEntries(page: int, rows: seq<Row>, virtualCount: int, overrides: Overrides, checked: set<int>)
    requires DistinctIds(rows)
    decreases |rows|
    ensures var m := Reconciled(page, rows, virtualCount, overrides, checked);
      forall i :: 0 <= i < |rows| ==>
        (rows[i].id in m <==> (rows[i].id in checked) != Implied(page, i, virtualCount)) &&
        (rows[i].id in m ==> m[rows[i].id] == (rows[i].id in checked))
    ensures Minimal(page, rows, virtualCount, Reconciled(page, rows, virtualCount, overrides, checked))
  {
    if |rows| > 0 {
      var n := |rows| - 1;
      var front := rows[..n];
      ReconciledEntries(page, front, virtualCount, overrides, checked);
      var m0 := Reconciled(page, front, virtualCount, overrides, checked);
      var m := Reconciled(page, rows, virtualCount, overrides, checked);
      assert m == ReconcileStep(m0, rows[n].id, Implied(page, n, virtualCount), checked);
      forall i | 0 <= i < n
        ensures (rows[i].id in m <==> (rows[i].id in checked) != Implied(page, i, virtualCount)) &&
                (rows[i].id in m ==> m[rows[i].id] == (rows[i].id in checked))
      {
        assert front[i] == rows[i];
        assert rows[i].id != rows[n].id;
      }
    }
  }

  /**
   * Reconciliation reads the old map only off the page: two maps that agree outside
   * a set of ids still agree, after reconciling, outside those ids not on the page.
   */
  lemma {:induction false} ReconciledAgree(page: int, rows: seq<Row>, virtualCount: int,
                                           m1: Overrides, m2: Overrides, checked: set<int>, ids: set<int>)
    requires AgreeOutside(m1, m2, ids)
    decreases |rows|
    ensures AgreeOutside(Reconciled(page, rows, virtualCount, m1, checked),
                         Reconciled(page, rows, virtualCount, m2, checked), ids - PageIds(rows))
  {
    if |rows| > 0 {
      var n := |rows| - 1;
      var front := rows[..n];
      ReconciledAgree(page, front, virtualCount, m1, m2, checked, ids);
      assert rows == front + [rows[n]];
      assert PageIds(rows) == PageIds(front) + {rows[n].id};
    }
  }

  /** Maps that agree on every id are equal. */
  lemma AgreeEverywhere(m1: Overrides, m2: Overrides)
    requires AgreeOutside(m1, m2, {})
    ensures m1 == m2
  {
    forall k ensures (k in m1 <==> k in m2) && (k in m1 ==> m1[k] == m2[k]) {
      assert k !in {};
    }
    assert m1.Keys == m2.Keys;
  }

  /**
   * The last reconciliation wins: reconciling with `c1` and then with `c2` gives the
   * same map as reconciling with `c2` alone.
   */
  lemma ReconcileLastWins(page: int, rows: seq<Row>, virtualCount: int, overrides: Overrides,
                          c1: set<int>, c2: set<int>)
    ensures Reconciled(page, rows, virtualCount, Reconciled(page, rows, virtualCount, overrides, c1), c2)
         == Reconciled(page, rows, virtualCount, overrides, c2)
  {
    var first := Reconciled(page, rows, virtualCount, overrides, c1);
    ReconciledAgree(page, rows, virtualCount, first, overrides, c2, PageIds(rows));
    AgreeEverywhere(Reconciled(page, rows, virtualCount, first, c2), Reconciled(page, rows, virtualCount, overrides, c2));
  }

  /** Reconciliation is idempotent. */
  lemma ReconcileIdempotent(page: int, rows: seq<Row>, virtualCount: int, overrides: Overrides, checked: set<int>)
    ensures var once := Reconciled(page, rows, virtualCount, overrides, checked);
      Reconciled(page, rows, virtualCount, once, checked) == once
  {
    ReconcileLastWins(page, rows, virtualCount, overrides, checked, checked);
  }

  /** The rows of the page whose ids are in `checked`, in page order. */
  function CheckedRows(rows: seq<Row>, checked: set<int>): seq<Row>
  {
    Keep(rows, seq(|rows|, i requires 0 <= i < |rows| => rows[i].id in checked))
  }

  /**
   * Deriving the selection right after reconciling with a checked set yields exactly
   * the loaded rows whose ids are in that set: what the table shows is what was checked.
   */
  lemma DeriveAfterReconcile(page: int, rows: seq<Row>, virtualCount: int, overrides: Overrides, checked: set<int>)
    requires DistinctIds(rows)
    ensures Derive(page, rows, virtualCount, Reconciled(page, rows, virtualCount, overrides, checked))
         == CheckedRows(rows, checked)
  {
    ReconciledEntries(page, rows, virtualCount, overrides, checked);
    var m := Reconciled(page, rows, virtualCount, overrides, checked);
    var shown := SelectionMask(page, rows, virtualCount, m);
    var wanted := seq(|rows|, i requires 0 <= i < |rows| => rows[i].id in checked);
    forall i | 0 <= i < |rows| ensures shown[i] == wanted[i] {
      assert shown[i] == Effective(page, i, rows[i].id, virtualCount, m);
    }
    assert shown == wanted;
  }

  /** The ids of the rows the table currently shows as checked. */
  function DisplayedIds(page: int, rows: seq<Row>, virtualCount: int, overrides: Overrides): set<int>
  {
    PageIds(Derive(page, rows, virtualCount, overrides))
  }

  /** With distinct ids, a loaded row's id is displayed iff the row is effectively selected. */
  lemma DisplayedIdsExact(page: int, rows: seq<Row>, virtualCount: int, overrides: Overrides)
    requires DistinctIds(rows)
    ensures forall i :: 0 <= i < |rows| ==>
      (rows[i].id in DisplayedIds(page, rows, virtualCount, overrides) <==>
        Effective(page, i, rows[i].id, virtualCount, overrides))
  {
    var sel := Derive(page, rows, virtualCount, overrides);
    DeriveSelects(page, rows, virtualCount, overrides);
    forall i | 0 <= i < |rows|
      ensures rows[i].id in PageIds(sel) ==> rows[i] in sel
    {
      if rows[i].id in PageIds(sel) {
        var r :| r in sel && r.id == rows[i].id;
        var k :| 0 <= k < |sel| && sel[k] == r;
        var ix := KeptIndices(SelectionMask(page, rows, virtualCount, overrides));
        assert rows[ix[k]].id == rows[i].id;
        assert ix[k] == i;
      }
    }
  }

  /**
   * Reconciling a minimal map with the checked set that one click on row `index`
   * produces from the displayed set changes only that row's entry: it removes an
   * entry that the click made redundant, or adds one with the clicked state.
   */
  lemma {:induction false} ReconcileOneClick(page: int, rows: seq<Row>, virtualCount: int, overrides: Overrides, index: int)
    requires DistinctIds(rows) && Minimal(page, rows, virtualCount, overrides)
    requires 0 <= index < |rows|
    ensures var x := rows[index].id;
      var shown := DisplayedIds(page, rows, virtualCount, overrides);
      var clicked := if x in shown then shown - {x} else shown + {x};
      Reconciled(page, rows, virtualCount, overrides, clicked)
        == if x in overrides then overrides - {x} else overrides[x := x !in shown]
  {
    var x := rows[index].id;
    var shown := DisplayedIds(page, rows, virtualCount, overrides);
    var clicked := if x in shown then shown - {x} else shown + {x};
    var m := Reconciled(page, rows, virtualCount, overrides, clicked);
    var want := if x in overrides then overrides - {x} else overrides[x := x !in shown];
    DisplayedIdsExact(page, rows, virtualCount, overrides);
    ReconciledEntries(page, rows, virtualCount, overrides, clicked);
    forall k ensures (k in m <==> k in want) && (k in m ==> m[k] == want[k]) {
      if k in PageIds(rows) {
        var r :| r in rows && r.id == k;
        var i :| 0 <= i < |rows| && rows[i] == r;
        if i != index {
          assert k != x;
        } else {
          assert k == x;
        }
      }
    }
    AgreeEverywhere(m, want);
  }

  /**
   * Reconciling a minimal map with the displayed set changes nothing: the table
   * re-reporting what it shows is a no-op.
   */
  lemma {:induction false} ReconcileDisplayedIsIdentity(page: int, rows: seq<Row>, virtualCount: int, overrides: Overrides)
    requires DistinctIds(rows) && Minimal(page, rows, virtualCount, overrides)
    ensures Reconciled(page, rows, virtualCount, overrides, DisplayedIds(page, rows, virtualCount, overrides)) == overrides
  {
    var shown := DisplayedIds(page, rows, virtualCount, overrides);
    var m := Reconciled(page, rows, virtualCount, overrides, shown);
    DisplayedIdsExact(page, rows, virtualCount, overrides);
    ReconciledEntries(page, rows, virtualCount, overrides, shown);
    forall k ensures (k in m <==> k in overrides) && (k in m ==> m[k] == overrides[k]) {
      if k in PageIds(rows) {
        var r :| r in rows && r.id == k;
        var i :| 0 <= i < |rows| && rows[i] == r;
      }
    }
    AgreeEverywhere(m, overrides);
  }

  /**
   * One click moves the count before flooring by exactly one: up when a row is
   * checked, down when it is unchecked.
   */
  lemma ClickShiftsCount(page: int, rows: seq<Row>, virtualCount: int, overrides: Overrides, index: int)
    requires DistinctIds(rows) && Minimal(page, rows, virtualCount, overrides)
    requires 0 <= index < |rows|
    ensures var x := rows[index].id;
      var shown := DisplayedIds(page, rows, virtualCount, overrides);
      var after := Reconciled(page, rows, virtualCount, overrides, if x in shown then shown - {x} else shown + {x});
      ForcedCount(after, true) - ForcedCount(after, false)
        == ForcedCount(overrides, true) - ForcedCount(overrides, false) + (if x in shown then -1 else 1)
  {
    var x := rows[index].id;
    var shown := DisplayedIds(page, rows, virtualCount, overrides);
    ReconcileOneClick(page, rows, virtualCount, overrides, index);
    DisplayedIdsExact(page, rows, virtualCount, overrides);
    if x in overrides {
      ForcedCountRemove(overrides, x, true);
      ForcedCountRemove(overrides, x, false);
    } else {
      ForcedCountAdd(overrides, x, x !in shown, true);
      ForcedCountAdd(overrides, x, x !in shown, false);
    }
  }

  /**
   * Clicking a row and clicking it back restores the override map, and with it
   * the total selected count.
   */
  lemma ClickTwiceRestores(page: int, rows: seq<Row>, virtualCount: int, overrides: Overrides, index: int)
    requires DistinctIds(rows) && Minimal(page, rows, virtualCount, overrides)
    requires 0 <= index < |rows|
    ensures var x := rows[index].id;
      var shown := DisplayedIds(page, rows, virtualCount, overrides);
      var once := Reconciled(page, rows, virtualCount, overrides, if x in shown then shown - {x} else shown + {x});
      Reconciled(page, rows, virtualCount, once, shown) == overrides &&
      TotalSelected(virtualCount, Reconciled(page, rows, virtualCount, once, shown)) == TotalSelected(virtualCount, overrides)
  {
    var x := rows[index].id;
    var shown := DisplayedIds(page, rows, virtualCount, overrides);
    ReconcileLastWins(page, rows, virtualCount, overrides, if x in shown then shown - {x} else shown + {x}, shown);
    ReconcileDisplayedIsIdentity(page, rows, virtualCount, overrides);
  }

  /**
   * A worked example: virtual count 15, page 2 loaded with the records of ranks
   * 13 to 24, and the user unchecks the first (rank 13) record. The map becomes
   * that record forced off, and the count drops to 14.
   */
  lemma UncheckFirstOfPageTwo(rows: seq<Row>)
    requires |rows| == RowsPerPage && DistinctIds(rows)
    ensures var shown := DisplayedIds(2, rows, 15, map[]);
      var after := Reconciled(2, rows, 15, map[], shown - {rows[0].id});
      rows[0].id in shown && after == map[rows[0].id := false] && TotalSelected(15, after) == 14
  {
    var shown := DisplayedIds(2, rows, 15, map[]);
    DisplayedIdsExact(2, rows, 15, map[]);
    assert Effective(2, 0, rows[0].id, 15, map[]);
    ReconcileOneClick(2, rows, 15, map[], 0);
    var after := map[rows[0].id := false];
    assert (set k | k in after && after[k] == true) == {};
    assert (set k | k in after && after[k] == false) == {rows[0].id};
  }

  /**
   * Without the minimality precondition, clicking a row twice need not restore the
   * map. Virtual count 5, page 1, one row with id 1 that carries a redundant
   * forced-selected entry: unchecking it stores a forced-deselected entry, checking
   * it again deletes that entry, and the count falls from 6 to 5.
   */
  lemma ClickTwiceWithRedundantEntry()
    ensures !Minimal(1, [Row(1)], 5, map[1 := true])
    ensures DisplayedIds(1, [Row(1)], 5, map[1 := true]) == {1}
    ensures Reconciled(1, [Row(1)], 5, map[1 := true], {}) == map[1 := false]
    ensures Reconciled(1, [Row(1)], 5, map[1 := false], {1}) == map[]
    ensures TotalSelected(5, map[1 := true]) == 6 && TotalSelected(5, map[]) == 5
  {
    var rows := [Row(1)];
    assert rows[..0] == [];
    DisplayedIdsExact(1, rows, 5, map[1 := true]);
    var sel := Derive(1, rows, 5, map[1 := true]);
    DeriveSelects(1, rows, 5, map[1 := true]);
    assert rows[0] in sel;
    assert PageIds(sel) == {1};
    ForcedCountAdd(map[], 1, true, true);
    ForcedCountAdd(map[], 1, true, false);
  }

  /**
   * A short last page: 25 records, virtual count 30, page 3 holds the one row of
   * rank 25, and that row is selected.
   */
  lemma ShortLastPageSelected()
    ensures Derive(3, [Row(7)], 30, map[]) == [Row(7)]
  {
    DeriveEverything(3, [Row(7)], 30, map[]);
  }
}
