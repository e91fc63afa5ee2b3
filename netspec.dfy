/** Value-level model of a net (src/network.py): the connection matrix and the
    two lists as plain values, the quantities the `Net` queries compute from
    them, the state each `Action` leaves behind, and what those transitions
    do to the cost and to the bookkeeping between matrix and lists. */
module NetSpec {
  import opened Common
  import opened Entities

  /** A snapshot of a net: `connection_matrix` (row per client, column per
      facility), `opened_facilities` and `assigned_clients`, the last two as
      lists of 0-based indices (duplicates possible, as in the source). */
  datatype NetState = NetState(cells: seq<seq<int>>, openedFacilities: seq<nat>, assignedClients: seq<nat>)

  /** The matrix has one row per cost row and one column per facility. */
  ghost predicate CellsShaped(d: Instance, cells: seq<seq<int>>)
  {
    && d.Valid()
    && |cells| == |d.cost|
    && (forall c :: 0 <= c < |cells| ==> |cells[c]| == |d.facilities|)
  }

  ghost predicate WellShaped(d: Instance, s: NetState)
  {
    && CellsShaped(d, s.cells)
    && Below(s.openedFacilities, |d.facilities|)
    && Below(s.assignedClients, |d.cost|)
  }

  // ---------------------------------------------------------------------
  // Cost (calc_cost)

  /** Sum of the opening costs over a facility list, entry by entry. */
  function FixedCost(d: Instance, facs: seq<nat>): real
    requires Below(facs, |d.facilities|)
  {
    if facs == [] then 0.0
    else FixedCost(d, facs[..|facs| - 1]) + d.facilities[facs[|facs| - 1]].costOpen
  }

  /** For each entry `c` of the client list, the cost to the facility that
      `idxmax` picks in row `c`: the first column holding the row maximum. */
  function VariableCost(d: Instance, cells: seq<seq<int>>, list: seq<nat>): real
    requires CellsShaped(d, cells)
    requires Below(list, |cells|)
  {
    if list == [] then 0.0
    else
      var c := list[|list| - 1];
      VariableCost(d, cells, list[..|list| - 1]) + d.cost[c][FirstMax(cells[c])]
  }

  /** The total `calc_cost` stores and returns. */
  function Cost(d: Instance, s: NetState): real
    requires WellShaped(d, s)
  {
    FixedCost(d, s.openedFacilities) + VariableCost(d, s.cells, s.assignedClients)
  }

  lemma {:induction false} FixedCostAppend(d: Instance, a: seq<nat>, b: seq<nat>)
    requires Below(a, |d.facilities|)
    requires Below(b, |d.facilities|)
    ensures FixedCost(d, a + b) == FixedCost(d, a) + FixedCost(d, b)
    decreases |b|
  {
    if b == [] {
      assert a + b == a;
    } else {
      var b' := b[..|b| - 1];
      assert (a + b)[..|a + b| - 1] == a + b';
      FixedCostAppend(d, a, b');
    }
  }

  /** Removing one occurrence of an opened facility takes exactly its
      opening cost off the fixed cost. */
  lemma FixedCostRemove(d: Instance, facs: seq<nat>, f: nat)
    requires Below(facs, |d.facilities|)
    requires f in facs
    ensures FixedCost(d, RemoveFirst(facs, f)) == FixedCost(d, facs) - d.facilities[f].costOpen
  {
    var n := |d.facilities|;
    var i := IndexOf(facs, f);
    var pre, post := facs[..i], facs[i + 1..];
    BelowParts(facs, i, n);
    assert Below([f], n);
    BelowConcat([f], post, n);
    assert RemoveFirst(facs, f) == pre + post;
    assert facs == pre + ([f] + post);
    assert FixedCost(d, [f]) == d.facilities[f].costOpen by {
      assert [f][..0] == [];
    }
    FixedCostAppend(d, pre, [f] + post);
    FixedCostAppend(d, [f], post);
    FixedCostAppend(d, pre, post);
  }

  /** The variable cost only looks at the rows of the listed clients. */
  lemma {:induction false} VariableCostFrame(d: Instance, cells: seq<seq<int>>, cells': seq<seq<int>>, list: seq<nat>)
    requires CellsShaped(d, cells) && CellsShaped(d, cells')
    requires Below(list, |cells|)
    requires forall i :: 0 <= i < |list| ==> cells'[list[i]] == cells[list[i]]
    ensures VariableCost(d, cells', list) == VariableCost(d, cells, list)
    decreases |list|
  {
    if list != [] {
      VariableCostFrame(d, cells, cells', list[..|list| - 1]);
    }
  }

  // ---------------------------------------------------------------------
  // Queries over the matrix (get_assigned_clients, get_assigned_cli_to_fac,
  // calc_agg_demand_facility, check_valid)

  /** Clients among the first `k` rows whose cell in column `f` is 1, in row order. */
  function ColumnClientsUpTo(cells: seq<seq<int>>, f: nat, k: nat): (r: seq<nat>)
    requires k <= |cells|
    requires forall c :: 0 <= c < |cells| ==> f < |cells[c]|
    ensures forall c {:trigger c in r} :: c in r <==> 0 <= c < k && cells[c][f] == 1
    ensures forall i, j :: 0 <= i < j < |r| ==> r[i] < r[j]
    ensures Below(r, k)
  {
    if k == 0 then []
    else
      var r := ColumnClientsUpTo(cells, f, k - 1);
      if cells[k - 1][f] == 1 then r + [k - 1] else r
  }

  /** `get_assigned_cli_to_fac`: the clients whose cell in column `f` is 1. */
  function ColumnClients(cells: seq<seq<int>>, f: nat): seq<nat>
    requires forall c :: 0 <= c < |cells| ==> f < |cells[c]|
  {
    ColumnClientsUpTo(cells, f, |cells|)
  }

  /** Clients among the first `k` rows with a 1 anywhere in their row, in row order. */
  function RowClientsUpTo(cells: seq<seq<int>>, k: nat): (r: seq<nat>)
    requires k <= |cells|
    ensures forall c {:trigger c in r} :: c in r <==> 0 <= c < k && 1 in cells[c]
    ensures forall i, j :: 0 <= i < j < |r| ==> r[i] < r[j]
    ensures Below(r, k)
  {
    if k == 0 then []
    else
      var r := RowClientsUpTo(cells, k - 1);
      if 1 in cells[k - 1] then r + [k - 1] else r
  }

  /** `get_assigned_clients`: the clients with a 1 in their row. */
  function RowClients(cells: seq<seq<int>>): seq<nat>
  {
    RowClientsUpTo(cells, |cells|)
  }

  /** Sum of the demands of the listed clients, entry by entry. */
  function DemandSum(d: Instance, list: seq<nat>): real
    requires Below(list, |d.clients|)
  {
    if list == [] then 0.0
    else DemandSum(d, list[..|list| - 1]) + d.clients[list[|list| - 1]].demand
  }

  /** Reference definition of a facility's aggregate demand, cell by cell:
      the demand of row `c` counts when cell (c, f) is 1. */
  function ColumnDemand(d: Instance, cells: seq<seq<int>>, f: nat, k: nat): real
    requires CellsShaped(d, cells) && f < |d.facilities| && k <= |cells|
  {
    if k == 0 then 0.0
    else ColumnDemand(d, cells, f, k - 1) + (if cells[k - 1][f] == 1 then d.clients[k - 1].demand else 0.0)
  }

  function AggDemand(d: Instance, cells: seq<seq<int>>, f: nat): real
    requires CellsShaped(d, cells) && f < |d.facilities|
  {
    ColumnDemand(d, cells, f, |cells|)
  }

  /** Summing demands over the column's client list is the cell-by-cell sum. */
  lemma {:induction false} ColumnClientsDemand(d: Instance, cells: seq<seq<int>>, f: nat, k: nat)
    requires CellsShaped(d, cells) && f < |d.facilities| && k <= |cells|
    ensures DemandSum(d, ColumnClientsUpTo(cells, f, k)) == ColumnDemand(d, cells, f, k)
  {
    if k > 0 {
      var r := ColumnClientsUpTo(cells, f, k - 1);
      BelowWeaken(r, k - 1, |d.clients|);
      ColumnClientsDemand(d, cells, f, k - 1);
      if cells[k - 1][f] == 1 {
        DemandSumAppend(d, r, k - 1);
      }
    }
  }

  /** Appending a client adds its demand. */
  lemma DemandSumAppend(d: Instance, list: seq<nat>, c: nat)
    requires Below(list, |d.clients|) && c < |d.clients|
    ensures Below(list + [c], |d.clients|)
    ensures DemandSum(d, list + [c]) == DemandSum(d, list) + d.clients[c].demand
  {
    BelowConcat(list, [c], |d.clients|);
    assert (list + [c])[..|list|] == list;
  }

  /** A facility whose column holds no 1 has aggregate demand 0. */
  lemma {:induction false} EmptyColumnDemand(d: Instance, cells: seq<seq<int>>, f: nat, k: nat)
    requires CellsShaped(d, cells) && f < |d.facilities| && k <= |cells|
    requires forall c :: 0 <= c < k ==> cells[c][f] != 1
    ensures ColumnDemand(d, cells, f, k) == 0.0
  {
    if k > 0 {
      EmptyColumnDemand(d, cells, f, k - 1);
    }
  }

  function RowSum(row: seq<int>): int
  {
    if row == [] then 0 else RowSum(row[..|row| - 1]) + row[|row| - 1]
  }

  /** `connection_matrix.values.sum()`. */
  function MatrixSum(cells: seq<seq<int>>): int
  {
    if cells == [] then 0 else MatrixSum(cells[..|cells| - 1]) + RowSum(cells[|cells| - 1])
  }

  lemma {:induction false} RowSumUpdate(row: seq<int>, j: nat, v: int)
    requires j < |row|
    ensures RowSum(row[j := v]) == RowSum(row) - row[j] + v
    decreases |row|
  {
    var n := |row|;
    if j < n - 1 {
      assert row[j := v][..n - 1] == row[..n - 1][j := v];
      RowSumUpdate(row[..n - 1], j, v);
    } else {
      assert row[j := v][..n - 1] == row[..n - 1];
    }
  }

  lemma {:induction false} RowSumZeros(row: seq<int>)
    requires forall j :: 0 <= j < |row| ==> row[j] == 0
    ensures RowSum(row) == 0
    decreases |row|
  {
    if row != [] {
      RowSumZeros(row[..|row| - 1]);
    }
  }

  /** What `check_valid` decides: as many 1-cells as clients, and no opened
      facility loaded beyond its capacity. */
  ghost predicate IsValid(d: Instance, s: NetState)
    requires WellShaped(d, s)
  {
    && MatrixSum(s.cells) == |d.clients|
    && forall i :: 0 <= i < |s.openedFacilities| ==>
         AggDemand(d, s.cells, s.openedFacilities[i]) <= d.facilities[s.openedFacilities[i]].capacity
  }

  // ---------------------------------------------------------------------
  // Bookkeeping between the matrix and the lists

  ghost predicate ZeroOne(cells: seq<seq<int>>)
  {
    forall c, j :: 0 <= c < |cells| && 0 <= j < |cells[c]| ==> cells[c][j] == 0 || cells[c][j] == 1
  }

  /** The invariant that `initilize` establishes and the three actions keep:
      0/1 cells, each client listed in `assigned_clients` once per 1 in its
      row, and no facility listed twice in `opened_facilities`. */
  ghost predicate Consistent(d: Instance, s: NetState)
  {
    && WellShaped(d, s)
    && ZeroOne(s.cells)
    && (forall c :: 0 <= c < |s.cells| ==> multiset(s.assignedClients)[c] == RowSum(s.cells[c]))
    && Distinct(s.openedFacilities)
  }

  // ---------------------------------------------------------------------
  // The states the operations leave

  /** After `initilize`: every cell 0, every facility opened, nobody assigned. */
  function InitState(d: Instance): (s: NetState)
    requires d.Valid()
    ensures WellShaped(d, s)
    ensures forall c, j :: 0 <= c < |s.cells| && 0 <= j < |s.cells[c]| ==> s.cells[c][j] == 0
    ensures s.openedFacilities == Range(|d.facilities|) && s.assignedClients == []
  {
    NetState(seq(|d.cost|, _ => seq(|d.facilities|, _ => 0)), Range(|d.facilities|), [])
  }

  /** After a successful `assign_cli_to_fac(c, f)`. */
  function AssignState(s: NetState, c: nat, f: nat): (t: NetState)
    requires c < |s.cells| && f < |s.cells[c]|
    ensures |t.cells| == |s.cells|
    ensures forall i :: 0 <= i < |s.cells| ==> |t.cells[i]| == |s.cells[i]|
    ensures forall i, j :: 0 <= i < |s.cells| && 0 <= j < |s.cells[i]| ==>
              t.cells[i][j] == if i == c && j == f then 1 else s.cells[i][j]
    ensures t.openedFacilities == s.openedFacilities && t.assignedClients == s.assignedClients + [c]
  {
    NetState(s.cells[c := s.cells[c][f := 1]], s.openedFacilities, s.assignedClients + [c])
  }

  /** After `open_fac(f)` gets past its first test: `f` appended to the
      opened list, whatever `check_valid` then says. */
  function OpenState(s: NetState, f: nat): (t: NetState)
    ensures t.cells == s.cells && t.assignedClients == s.assignedClients
    ensures t.openedFacilities == s.openedFacilities + [f]
  {
    NetState(s.cells, s.openedFacilities + [f], s.assignedClients)
  }

  /** The matrix with column `f` set to 0 (`connection_matrix[f] = 0`). */
  function ClearColumn(cells: seq<seq<int>>, f: nat): (r: seq<seq<int>>)
    requires forall c :: 0 <= c < |cells| ==> f < |cells[c]|
    ensures |r| == |cells|
    ensures forall c :: 0 <= c < |cells| ==> |r[c]| == |cells[c]|
    ensures forall c, j :: 0 <= c < |cells| && 0 <= j < |cells[c]| ==>
              r[c][j] == if j == f then 0 else cells[c][j]
  {
    seq(|cells|, c requires 0 <= c < |cells| => cells[c][f := 0])
  }

  /** The preconditions under which `close_fac` on an opened facility runs to
      the end: every client of column `f` can be removed from the list. */
  ghost predicate CanClose(s: NetState, f: nat)
  {
    && f in s.openedFacilities
    && (forall c :: 0 <= c < |s.cells| ==> f < |s.cells[c]|)
    && multiset(ColumnClients(s.cells, f)) <= multiset(s.assignedClients)
  }

  /** After `close_fac(f)` on an opened facility: its clients are removed
      from the list (one occurrence each), its column is cleared, and it
      leaves `opened_facilities`. Nobody is reassigned. */
  function CloseState(s: NetState, f: nat): NetState
    requires CanClose(s, f)
  {
    NetState(ClearColumn(s.cells, f), RemoveFirst(s.openedFacilities, f), RemoveEach(s.assignedClients, ColumnClients(s.cells, f)))
  }

  /** What closing does, entry by entry: column `f` holds no client any more,
      every other cell is kept, `f` leaves the opened list once, and each of
      its former clients leaves the assigned list once. */
  lemma CloseStateEffect(s: NetState, f: nat)
    requires CanClose(s, f)
    ensures ColumnClients(CloseState(s, f).cells, f) == []
    ensures |CloseState(s, f).cells| == |s.cells|
    ensures forall c, j :: 0 <= c < |s.cells| && 0 <= j < |s.cells[c]| && j != f ==>
              j < |CloseState(s, f).cells[c]| && CloseState(s, f).cells[c][j] == s.cells[c][j]
    ensures multiset(CloseState(s, f).openedFacilities) == multiset(s.openedFacilities) - multiset{f}
    ensures multiset(CloseState(s, f).assignedClients)
         == multiset(s.assignedClients) - multiset(ColumnClients(s.cells, f))
  {
    var t := CloseState(s, f);
    ColumnClientsNone(t.cells, f, |t.cells|);
  }

  /** `check_complete`'s repair: when the listed clients and the clients with
      a 1 in their row differ as sets, the list is replaced by the latter. */
  function Reconciled(s: NetState): (r: seq<nat>)
    ensures Elems(r) == Elems(RowClients(s.cells))
    ensures Elems(s.assignedClients) == Elems(RowClients(s.cells)) ==> r == s.assignedClients
  {
    var rows := RowClients(s.cells);
    if Elems(s.assignedClients) != Elems(rows) then rows else s.assignedClients
  }

  // ---------------------------------------------------------------------
  // Lemmas about the transitions

  /** `initilize` establishes the invariant, and the cost of a fresh net is
      the opening cost of all facilities. */
  lemma InitConsistent(d: Instance)
    requires d.Valid()
    ensures Consistent(d, InitState(d))
    ensures Cost(d, InitState(d)) == FixedCost(d, Range(|d.facilities|))
  {
    var s := InitState(d);
    forall c | 0 <= c < |s.cells|
      ensures multiset(s.assignedClients)[c] == RowSum(s.cells[c])
    {
      RowSumZeros(s.cells[c]);
    }
  }

  /** Opening a facility that is not yet opened keeps the invariant and
      adds exactly its opening cost to the total. */
  lemma OpenConsistent(d: Instance, s: NetState, f: nat)
    requires Consistent(d, s) && f < |d.facilities| && f !in s.openedFacilities
    ensures Consistent(d, OpenState(s, f))
    ensures Cost(d, OpenState(s, f)) == Cost(d, s) + d.facilities[f].costOpen
  {
    var t := OpenState(s, f);
    FixedCostAppend(d, s.openedFacilities, [f]);
    assert [f][..0] == [];
    forall i, j | 0 <= i < j < |t.openedFacilities|
      ensures t.openedFacilities[i] != t.openedFacilities[j]
    {
      if j == |s.openedFacilities| {
        assert t.openedFacilities[i] in s.openedFacilities;
      }
    }
  }

  /** Assigning over a 0-cell keeps the invariant. */
  lemma AssignConsistent(d: Instance, s: NetState, c: nat, f: nat)
    requires Consistent(d, s) && c < |s.cells| && f < |d.facilities|
    requires s.cells[c][f] != 1
    ensures Consistent(d, AssignState(s, c, f))
  {
    var t := AssignState(s, c, f);
    assert t.cells[c] == s.cells[c][f := 1];
    RowSumUpdate(s.cells[c], f, 1);
    forall x | 0 <= x < |t.cells|
      ensures multiset(t.assignedClients)[x] == RowSum(t.cells[x])
    {
      if x != c {
        assert t.cells[x] == s.cells[x];
      }
    }
  }

  /** Assigning a client with an all-zero row, on a consistent net, adds
      exactly that client's cost to that facility: the balance
      `cost_ini - cost_end` is `-cost(c, f)` when the cached total was current. */
  lemma AssignFreshClientCost(d: Instance, s: NetState, c: nat, f: nat)
    requires Consistent(d, s) && c < |s.cells| && f < |d.facilities|
    requires forall j :: 0 <= j < |s.cells[c]| ==> s.cells[c][j] == 0
    ensures WellShaped(d, AssignState(s, c, f))
    ensures Cost(d, AssignState(s, c, f)) == Cost(d, s) + d.cost[c][f]
  {
    var t := AssignState(s, c, f);
    RowSumZeros(s.cells[c]);
    assert c !in s.assignedClients by {
      assert multiset(s.assignedClients)[c] == 0;
    }
    forall i | 0 <= i < |s.assignedClients|
      ensures t.cells[s.assignedClients[i]] == s.cells[s.assignedClients[i]]
    {
      assert s.assignedClients[i] != c;
    }
    VariableCostFrame(d, s.cells, t.cells, s.assignedClients);
    assert t.assignedClients[..|t.assignedClients| - 1] == s.assignedClients;
    assert t.cells[c][f] == 1;
  }

  /** On a consistent net `close_fac` of an opened facility runs to the end:
      every client of the column is in the list. */
  lemma ConsistentCanClose(d: Instance, s: NetState, f: nat)
    requires Consistent(d, s) && f < |d.facilities| && f in s.openedFacilities
    ensures CanClose(s, f)
  {
    var col: seq<nat> := ColumnClients(s.cells, f);
    forall c | c in multiset(col)
      ensures multiset(col)[c] <= multiset(s.assignedClients)[c]
    {
      ColumnCount(col, c);
      RowSumUpdate(s.cells[c], f, 0);
      RowSumNonNegative(s.cells[c][f := 0]);
    }
  }

  /** Closing removes each client of the column from the list once. */
  lemma CloseCounts(d: Instance, s: NetState, f: nat)
    requires Consistent(d, s) && f < |d.facilities| && f in s.openedFacilities
    ensures CanClose(s, f)
    ensures forall c :: 0 <= c < |s.cells| ==>
              multiset(CloseState(s, f).assignedClients)[c] + (if s.cells[c][f] == 1 then 1 else 0)
              == multiset(s.assignedClients)[c]
  {
    ConsistentCanClose(d, s, f);
    var col: seq<nat> := ColumnClients(s.cells, f);
    forall c: nat | c < |s.cells|
      ensures multiset(col)[c] == if s.cells[c][f] == 1 then 1 else 0
    {
      if s.cells[c][f] == 1 {
        assert c in col;
        ColumnCount(col, c);
      } else {
        assert c !in col;
      }
    }
  }

  /** Closing keeps the invariant: the removals from the list match the
      1-cells cleared from the column, client by client. */
  lemma CloseConsistent(d: Instance, s: NetState, f: nat)
    requires Consistent(d, s) && f < |d.facilities| && f in s.openedFacilities
    ensures CanClose(s, f)
    ensures Consistent(d, CloseState(s, f))
  {
    CloseRowSums(d, s, f);
    CloseWellShaped(d, s, f);
    DistinctRemoveFirst(s.openedFacilities, f);
    assert ZeroOne(CloseState(s, f).cells);
  }

  /** Closing keeps every row sum equal to the client's count in the list. */
  lemma CloseRowSums(d: Instance, s: NetState, f: nat)
    requires Consistent(d, s) && f < |d.facilities| && f in s.openedFacilities
    ensures CanClose(s, f)
    ensures forall c :: 0 <= c < |s.cells| ==>
              multiset(CloseState(s, f).assignedClients)[c] == RowSum(CloseState(s, f).cells[c])
  {
    CloseCounts(d, s, f);
    forall c | 0 <= c < |s.cells|
      ensures RowSum(CloseState(s, f).cells[c]) + (if s.cells[c][f] == 1 then 1 else 0) == RowSum(s.cells[c])
    {
      CloseRowSum(s, f, c);
    }
  }

  lemma CloseRowSum(s: NetState, f: nat, c: nat)
    requires CanClose(s, f) && c < |s.cells|
    requires s.cells[c][f] == 0 || s.cells[c][f] == 1
    ensures RowSum(CloseState(s, f).cells[c]) + (if s.cells[c][f] == 1 then 1 else 0) == RowSum(s.cells[c])
  {
    assert CloseState(s, f).cells[c] == s.cells[c][f := 0];
    RowSumUpdate(s.cells[c], f, 0);
  }

  lemma {:induction false} ColumnClientsNone(cells: seq<seq<int>>, f: nat, k: nat)
    requires k <= |cells|
    requires forall c :: 0 <= c < |cells| ==> f < |cells[c]|
    requires forall c :: 0 <= c < k ==> cells[c][f] != 1
    ensures ColumnClientsUpTo(cells, f, k) == []
  {
    if k > 0 {
      ColumnClientsNone(cells, f, k - 1);
    }
  }

  /** A strictly increasing list holds each of its members once. */
  lemma ColumnCount(list: seq<nat>, c: nat)
    requires forall i, j :: 0 <= i < j < |list| ==> list[i] < list[j]
    requires c in list
    ensures multiset(list)[c] == 1
  {
    var i :| 0 <= i < |list| && list[i] == c;
    assert list == list[..i] + [c] + list[i + 1..];
    assert c !in list[..i];
    assert c !in list[i + 1..];
  }

  lemma {:induction false} RowSumNonNegative(row: seq<int>)
    requires forall j :: 0 <= j < |row| ==> row[j] == 0 || row[j] == 1
    ensures RowSum(row) >= 0
    decreases |row|
  {
    if row != [] {
      RowSumNonNegative(row[..|row| - 1]);
    }
  }

  /** Closing a facility with no client takes exactly its opening cost off
      the total: the balance is `cost_open(f)` when the cached total was current. */
  lemma CloseEmptyFacilityCost(d: Instance, s: NetState, f: nat)
    requires Consistent(d, s) && f < |d.facilities| && f in s.openedFacilities
    requires forall c :: 0 <= c < |s.cells| ==> s.cells[c][f] == 0
    ensures CanClose(s, f)
    ensures CloseState(s, f).cells == s.cells && CloseState(s, f).assignedClients == s.assignedClients
    ensures WellShaped(d, CloseState(s, f))
    ensures Cost(d, CloseState(s, f)) == Cost(d, s) - d.facilities[f].costOpen
  {
    ColumnClientsNone(s.cells, f, |s.cells|);
    assert RemoveEach(s.assignedClients, ColumnClients(s.cells, f)) == s.assignedClients;
    var t := CloseState(s, f);
    forall c | 0 <= c < |s.cells|
      ensures t.cells[c] == s.cells[c]
    {
      assert t.cells[c] == s.cells[c][f := 0];
    }
    assert t.cells == s.cells;
    CloseWellShaped(d, s, f);
    FixedCostRemove(d, s.openedFacilities, f);
  }

  /** Closing keeps every listed facility and client in range. */
  lemma CloseWellShaped(d: Instance, s: NetState, f: nat)
    requires WellShaped(d, s) && CanClose(s, f)
    ensures WellShaped(d, CloseState(s, f))
  {
    var i := IndexOf(s.openedFacilities, f);
    BelowParts(s.openedFacilities, i, |d.facilities|);
    BelowConcat(s.openedFacilities[..i], s.openedFacilities[i + 1..], |d.facilities|);
    RemoveEachBounded(s.assignedClients, ColumnClients(s.cells, f), |d.cost|);
    assert CellsShaped(d, CloseState(s, f).cells);
  }

  /** On a consistent net `check_complete` never rewrites the client list. */
  lemma ConsistentIsReconciled(d: Instance, s: NetState)
    requires Consistent(d, s)
    ensures Reconciled(s) == s.assignedClients
  {
    forall c | c in s.assignedClients
      ensures c in RowClients(s.cells)
    {
      assert multiset(s.assignedClients)[c] > 0;
      if 1 !in s.cells[c] {
        RowSumZeros(s.cells[c]);
      }
    }
    forall c | c in RowClients(s.cells)
      ensures c in s.assignedClients
    {
      var j :| 0 <= j < |s.cells[c]| && s.cells[c][j] == 1;
      RowSumUpdate(s.cells[c], j, 0);
      RowSumNonNegative(s.cells[c][j := 0]);
    }
  }

  // ---------------------------------------------------------------------
  // dummy_greedy_net

  /** The matrix once `dummy_greedy_net` has handled the first `k` clients:
      each handled row gets a 1 at its cheapest facility (`idxmin`, first
      index on ties); capacity plays no part. */
  function GreedyCells(d: Instance, cells: seq<seq<int>>, k: nat): (r: seq<seq<int>>)
    requires CellsShaped(d, cells) && k <= |cells|
    ensures CellsShaped(d, r)
    ensures forall c, j :: 0 <= c < |cells| && 0 <= j < |cells[c]| ==>
              r[c][j] == if c < k && j == FirstMin(d.cost[c]) then 1 else cells[c][j]
  {
    seq(|cells|, c requires 0 <= c < |cells| =>
      if c < k then cells[c][FirstMin(d.cost[c]) := 1] else cells[c])
  }

  /** The clients among the first `k`, in order, that `dummy_greedy_net`
      newly assigns: those whose cheapest cell is not already 1. */
  function NewlyAssigned(d: Instance, cells: seq<seq<int>>, k: nat): (r: seq<nat>)
    requires CellsShaped(d, cells) && k <= |cells|
    ensures forall c {:trigger c in r} :: c in r <==> 0 <= c < k && cells[c][FirstMin(d.cost[c])] != 1
    ensures Below(r, k)
  {
    if k == 0 then []
    else
      var r := NewlyAssigned(d, cells, k - 1);
      if cells[k - 1][FirstMin(d.cost[k - 1])] != 1 then r + [k - 1] else r
  }

  /** Sum over the first `k` clients of their cheapest assignment cost. */
  function MinCostSum(d: Instance, k: nat): real
    requires d.Valid() && k <= |d.cost|
  {
    if k == 0 then 0.0 else MinCostSum(d, k - 1) + Min(d.cost[k - 1])
  }

  ghost predicate AllZero(cells: seq<seq<int>>)
  {
    forall c, j :: 0 <= c < |cells| && 0 <= j < |cells[c]| ==> cells[c][j] == 0
  }

  lemma {:induction false} NewlyAssignedFromZero(d: Instance, cells: seq<seq<int>>, k: nat)
    requires CellsShaped(d, cells) && AllZero(cells) && k <= |cells|
    ensures NewlyAssigned(d, cells, k) == Range(k)
  {
    if k > 0 {
      NewlyAssignedFromZero(d, cells, k - 1);
      var m := FirstMin(d.cost[k - 1]);
      assert cells[k - 1][m] == 0;
      assert NewlyAssigned(d, cells, k) == Range(k - 1) + [k - 1];
      assert Range(k) == Range(k - 1) + [k - 1];
    }
  }

  /** Every greedy row from the all-zero matrix holds exactly one 1. */
  lemma GreedyRowsOne(d: Instance, cells: seq<seq<int>>)
    requires CellsShaped(d, cells) && AllZero(cells)
    ensures forall c :: 0 <= c < |cells| ==> RowSum(GreedyCells(d, cells, |cells|)[c]) == 1
  {
    var g := GreedyCells(d, cells, |cells|);
    forall c | 0 <= c < |cells|
      ensures RowSum(g[c]) == 1
    {
      var m := FirstMin(d.cost[c]);
      assert g[c] == cells[c][m := 1];
      RowSumZeros(cells[c]);
      RowSumUpdate(cells[c], m, 1);
    }
  }

  lemma {:induction false} MatrixSumOnes(cells: seq<seq<int>>)
    requires forall c :: 0 <= c < |cells| ==> RowSum(cells[c]) == 1
    ensures MatrixSum(cells) == |cells|
    decreases |cells|
  {
    if cells != [] {
      MatrixSumOnes(cells[..|cells| - 1]);
    }
  }

  /** With one 1 per row at the cheapest facility, listing the first `k`
      clients in order costs the sum of their row minima. */
  lemma GreedyVariableCost(d: Instance, cells: seq<seq<int>>, k: nat)
    requires CellsShaped(d, cells) && AllZero(cells) && k <= |cells|
    ensures VariableCost(d, GreedyCells(d, cells, |cells|), Range(k)) == MinCostSum(d, k)
  {
    var g := GreedyCells(d, cells, |cells|);
    forall c | 0 <= c < k
      ensures FirstMax(g[c]) == FirstMin(d.cost[c])
    {
      GreedyRowMax(d, cells, c);
    }
    CheapestVariableCost(d, g, k);
  }

  /** When each of the first `k` rows has its first maximum at the row's
      cheapest facility, listing those clients in order costs the sum of
      their row minima. */
  lemma {:induction false} CheapestVariableCost(d: Instance, g: seq<seq<int>>, k: nat)
    requires CellsShaped(d, g) && k <= |g|
    requires forall c {:trigger FirstMax(g[c])} :: 0 <= c < k ==> FirstMax(g[c]) == FirstMin(d.cost[c])
    ensures VariableCost(d, g, Range(k)) == MinCostSum(d, k)
  {
    if k > 0 {
      CheapestVariableCost(d, g, k - 1);
      RangeSnoc(k - 1);
      VariableCostSnoc(d, g, Range(k - 1), k - 1);
      assert FirstMax(g[k - 1]) == FirstMin(d.cost[k - 1]);
    }
  }

  /** Listing one more client adds that client's cost at its row's first maximum. */
  lemma VariableCostSnoc(d: Instance, cells: seq<seq<int>>, list: seq<nat>, c: nat)
    requires CellsShaped(d, cells) && Below(list, |cells|) && c < |cells|
    ensures Below(list + [c], |cells|)
    ensures VariableCost(d, cells, list + [c]) == VariableCost(d, cells, list) + d.cost[c][FirstMax(cells[c])]
  {
    BelowConcat(list, [c], |cells|);
    assert (list + [c])[..|list|] == list;
  }

  /** In the greedy matrix from all zeros, a row's first maximum is its
      cheapest facility. */
  lemma GreedyRowMax(d: Instance, cells: seq<seq<int>>, c: nat)
    requires CellsShaped(d, cells) && AllZero(cells) && c < |cells|
    ensures FirstMax(GreedyCells(d, cells, |cells|)[c]) == FirstMin(d.cost[c])
  {
    var row := GreedyCells(d, cells, |cells|)[c];
    var m := FirstMin(d.cost[c]);
    assert row[m] == 1;
    assert forall j :: 0 <= j < |row| && j != m ==> row[j] == 0;
  }

  /** On the all-zero matrix `check_complete` leaves an empty client list. */
  lemma ZeroReconciled(cells: seq<seq<int>>, facs: seq<nat>, list: seq<nat>)
    requires AllZero(cells)
    ensures Reconciled(NetState(cells, facs, list)) == []
  {
    RowClientsNone(cells, |cells|);
    if list != [] {
      assert list[0] in Elems(list);
    }
  }

  /** `dummy_greedy_net` from the all-zero matrix: every client is newly
      assigned, in input order; each row holds exactly one 1, at its cheapest
      facility; the result keeps the invariant; and it passes the count test
      of `check_valid` exactly when there are as many clients as cost rows. */
  lemma GreedyFromZero(d: Instance, cells: seq<seq<int>>, facs: seq<nat>)
    requires CellsShaped(d, cells) && AllZero(cells)
    requires Below(facs, |d.facilities|)
    requires Distinct(facs)
    ensures NewlyAssigned(d, cells, |cells|) == Range(|cells|)
    ensures forall c :: 0 <= c < |cells| ==> RowSum(GreedyCells(d, cells, |cells|)[c]) == 1
    ensures Consistent(d, NetState(GreedyCells(d, cells, |cells|), facs, Range(|cells|)))
    ensures MatrixSum(GreedyCells(d, cells, |cells|)) == |d.clients| <==> |d.clients| == |d.cost|
  {
    var n := |cells|;
    var g := GreedyCells(d, cells, n);
    NewlyAssignedFromZero(d, cells, n);
    GreedyRowsOne(d, cells);
    MatrixSumOnes(g);
    forall c | 0 <= c < n
      ensures multiset(Range(n))[c] == RowSum(g[c])
    {
      ColumnCount(Range(n), c);
    }
    assert ZeroOne(g);
  }

  /** The greedy net built from the all-zero matrix costs the opening cost
      of the opened list plus the sum of the row minima. */
  lemma GreedyCost(d: Instance, cells: seq<seq<int>>, facs: seq<nat>)
    requires CellsShaped(d, cells) && AllZero(cells)
    requires Below(facs, |d.facilities|)
    ensures WellShaped(d, NetState(GreedyCells(d, cells, |cells|), facs, Range(|cells|)))
    ensures Cost(d, NetState(GreedyCells(d, cells, |cells|), facs, Range(|cells|)))
            == FixedCost(d, facs) + MinCostSum(d, |cells|)
  {
    GreedyVariableCost(d, cells, |cells|);
  }

  /** The greedy net need not be valid, although the documentation of
      `dummy_greedy_net` promises that demand restrictions are not violated:
      two clients of demand 1 whose cheapest facility has capacity 1 both
      land on it. */
  lemma GreedyIgnoresCapacity()
    ensures var d := Instance([Facility(1, 1.0, 0.0), Facility(2, 1.0, 0.0)],
                              [Client(1, 1.0), Client(2, 1.0)],
                              [[1.0, 2.0], [1.0, 2.0]]);
            var zero := [[0, 0], [0, 0]];
            && CellsShaped(d, zero) && AllZero(zero)
            && WellShaped(d, NetState(GreedyCells(d, zero, 2), [0, 1], [0, 1]))
            && !IsValid(d, NetState(GreedyCells(d, zero, 2), [0, 1], [0, 1]))
  {
    var d := Instance([Facility(1, 1.0, 0.0), Facility(2, 1.0, 0.0)],
                      [Client(1, 1.0), Client(2, 1.0)],
                      [[1.0, 2.0], [1.0, 2.0]]);
    var zero := [[0, 0], [0, 0]];
    var g := GreedyCells(d, zero, 2);
    assert FirstMin(d.cost[0]) == 0 && FirstMin(d.cost[1]) == 0;
    assert g[0][0] == 1 && g[1][0] == 1;
    assert ColumnDemand(d, g, 0, 0) == 0.0;
    assert ColumnDemand(d, g, 0, 1) == 1.0;
    assert ColumnDemand(d, g, 0, 2) == 2.0;
    assert AggDemand(d, g, 0) > d.facilities[0].capacity;
    assert d.Valid() && CellsShaped(d, zero) && AllZero(zero);
    assert Below([0, 1], 2);
    var s := NetState(g, [0, 1], [0, 1]);
    assert WellShaped(d, s);
    assert s.openedFacilities[0] == 0;
    assert !IsValid(d, s);
  }

  /** The greedy matrix for `k + 1` clients marks row `k`, still original
      in the matrix for `k`, at its cheapest facility. */
  lemma GreedyCellsNext(d: Instance, cells: seq<seq<int>>, k: nat)
    requires CellsShaped(d, cells) && k < |cells|
    ensures GreedyCells(d, cells, k)[k] == cells[k]
    ensures GreedyCells(d, cells, k + 1) == GreedyCells(d, cells, k)[k := cells[k][FirstMin(d.cost[k]) := 1]]
  {
    var g, g' := GreedyCells(d, cells, k), GreedyCells(d, cells, k + 1);
    var h := g[k := cells[k][FirstMin(d.cost[k]) := 1]];
    forall c | 0 <= c < |cells|
      ensures g'[c] == h[c]
    {
    }
  }

  /** Writing a 1 into row `k` and listing `k` keeps the listed clients and
      the clients with a 1 in their row equal as sets. */
  lemma RowClientsMark(cells: seq<seq<int>>, k: nat, j: nat, list: seq<nat>)
    requires k < |cells| && j < |cells[k]|
    requires Elems(list) == Elems(RowClients(cells))
    ensures Elems(list + [k]) == Elems(RowClients(cells[k := cells[k][j := 1]]))
  {
    var cells' := cells[k := cells[k][j := 1]];
    forall c
      ensures c in Elems(list + [k]) <==> c in Elems(RowClients(cells'))
    {
      if c == k {
        assert cells'[k][j] == 1;
      } else {
        assert c in list + [k] <==> c in list;
        assert c in Elems(list) <==> c in RowClients(cells);
        if 0 <= c < |cells| {
          assert cells'[c] == cells[c];
        }
      }
    }
  }

  /** One step of `dummy_greedy_net`, on client `k` with cheapest facility
      `m`: when the original cell (k, m) is 1 the action is refused and
      nothing moves; otherwise assigning (k, m) yields the next greedy
      matrix, `k` joins the newly assigned clients, and the listed clients
      still match the clients with a 1 in their row. */
  lemma GreedyStep(d: Instance, cells: seq<seq<int>>, k: nat, facs: seq<nat>, list: seq<nat>)
    requires CellsShaped(d, cells) && k < |cells|
    requires Elems(list) == Elems(RowClients(GreedyCells(d, cells, k)))
    ensures GreedyCells(d, cells, k)[k][FirstMin(d.cost[k])] == cells[k][FirstMin(d.cost[k])]
    ensures cells[k][FirstMin(d.cost[k])] == 1 ==>
              && GreedyCells(d, cells, k + 1) == GreedyCells(d, cells, k)
              && NewlyAssigned(d, cells, k + 1) == NewlyAssigned(d, cells, k)
    ensures cells[k][FirstMin(d.cost[k])] != 1 ==>
              && AssignState(NetState(GreedyCells(d, cells, k), facs, list), k, FirstMin(d.cost[k]))
                 == NetState(GreedyCells(d, cells, k + 1), facs, list + [k])
              && NewlyAssigned(d, cells, k + 1) == NewlyAssigned(d, cells, k) + [k]
              && Elems(list + [k]) == Elems(RowClients(GreedyCells(d, cells, k + 1)))
  {
    var m := FirstMin(d.cost[k]);
    var g := GreedyCells(d, cells, k);
    GreedyCellsNext(d, cells, k);
    if cells[k][m] == 1 {
      assert cells[k][m := 1] == cells[k];
      assert g[k := cells[k]] == g;
    } else {
      RowClientsMark(g, k, m, list);
    }
  }

  lemma {:induction false} RowClientsNone(cells: seq<seq<int>>, k: nat)
    requires k <= |cells| && AllZero(cells)
    ensures RowClientsUpTo(cells, k) == []
  {
    if k > 0 {
      RowClientsNone(cells, k - 1);
      assert 1 !in cells[k - 1];
    }
  }

  // ---------------------------------------------------------------------
  // dummy_greedy_net as written

  /** How `dummy_greedy_net` as written ends, with the caller's net as it
      is left: the matrix and the two shared lists. */
  datatype GreedyRun =
    | Completed(state: NetState)
    | TypeError(client: nat, state: NetState)
    | KeyError(client: nat, state: NetState)

  /** The loop of `dummy_greedy_net` exactly as written, over every client
      from `k` on. It unpacks each action's result as a triple
      `[ok, new_net, balance]`, but `assign_cli_to_fac` returns the triple
      only when it refuses; on success it returns the `Action` object, which
      cannot be unpacked. So the first client that is actually assigned gets
      its cell set and is appended to the shared client list, and then the
      loop raises TypeError. A client without a cost row (possible when the
      last demand line is over-long) makes `cost_matrix.loc` raise KeyError. */
  function GreedyAsWritten(d: Instance, s: NetState, k: nat): (r: GreedyRun)
    requires CellsShaped(d, s.cells) && k <= |d.clients|
    ensures r.state.openedFacilities == s.openedFacilities
    ensures r.KeyError? ==> r.client == |s.cells| < |d.clients| && r.state == s
    decreases |d.clients| - k
  {
    if k == |d.clients| then Completed(s)
    else if k >= |s.cells| then KeyError(|s.cells|, s)
    else
      var m := FirstMin(d.cost[k]);
      if s.cells[k][m] == 1 then GreedyAsWritten(d, s, k + 1)
      else TypeError(k, AssignState(s, k, m))
  }

  /** `dummy_greedy_net` as written on the net `s`: the first
      `check_complete` may rewrite the client list, then the loop runs. Only
      a TypeError leaves the matrix changed. */
  function GreedyNetAsWritten(d: Instance, s: NetState): (r: GreedyRun)
    requires CellsShaped(d, s.cells)
    ensures r.state.openedFacilities == s.openedFacilities
    ensures !r.TypeError? ==> r.state.cells == s.cells
  {
    var run := GreedyAsWritten(d, NetState(s.cells, s.openedFacilities, Reconciled(s)), 0);
    GreedyAsWrittenOutcome(d, NetState(s.cells, s.openedFacilities, Reconciled(s)), 0);
    run
  }

  /** Row `c`'s cell at its cheapest facility is already 1. */
  ghost predicate MarkedCheapest(d: Instance, cells: seq<seq<int>>, c: nat)
    requires CellsShaped(d, cells) && c < |cells|
  {
    cells[c][FirstMin(d.cost[c])] == 1
  }

  /** The loop as written runs to the end exactly when no client from `k` on
      would be assigned and every client has a cost row, and then it has
      changed nothing; it raises KeyError, having changed nothing, when no
      client would be assigned but some client has no cost row; otherwise it
      stops with TypeError at the first client that would be assigned, whose
      cheapest cell it has just set to 1 and which it has just appended to
      the client list. */
  lemma {:induction false} GreedyAsWrittenOutcome(d: Instance, s: NetState, k: nat)
    requires CellsShaped(d, s.cells) && k <= |s.cells|
    ensures GreedyAsWritten(d, s, k).Completed? <==>
              (forall c :: k <= c < |s.cells| ==> MarkedCheapest(d, s.cells, c)) && |d.clients| == |s.cells|
    ensures GreedyAsWritten(d, s, k).KeyError? <==>
              (forall c :: k <= c < |s.cells| ==> MarkedCheapest(d, s.cells, c)) && |s.cells| < |d.clients|
    ensures !GreedyAsWritten(d, s, k).TypeError? ==> GreedyAsWritten(d, s, k).state == s
    decreases |s.cells| - k
  {
    if k < |s.cells| {
      if MarkedCheapest(d, s.cells, k) {
        GreedyAsWrittenOutcome(d, s, k + 1);
        assert GreedyAsWritten(d, s, k) == GreedyAsWritten(d, s, k + 1);
      } else {
        assert GreedyAsWritten(d, s, k).TypeError?;
      }
    }
  }

  /** Where the loop as written stops with TypeError: at the first client
      from `k` on whose cheapest facility is not marked, after marking that
      cell and appending the client to the list. */
  lemma {:induction false} GreedyAsWrittenFailure(d: Instance, s: NetState, k: nat)
    requires CellsShaped(d, s.cells) && k <= |s.cells|
    requires GreedyAsWritten(d, s, k).TypeError?
    ensures var c := GreedyAsWritten(d, s, k).client;
              && k <= c < |s.cells| && !MarkedCheapest(d, s.cells, c)
              && (forall c' :: k <= c' < c ==> MarkedCheapest(d, s.cells, c'))
              && GreedyAsWritten(d, s, k).state
                 == NetState(s.cells[c := s.cells[c][FirstMin(d.cost[c]) := 1]], s.openedFacilities, s.assignedClients + [c])
    decreases |s.cells| - k
  {
    if MarkedCheapest(d, s.cells, k) {
      GreedyAsWrittenFailure(d, s, k + 1);
      assert GreedyAsWritten(d, s, k) == GreedyAsWritten(d, s, k + 1);
    }
  }

  /** On a fresh net (every cell 0) with at least one client row, the loop
      as written raises TypeError on the very first client, leaving the net
      with that one client assigned to its cheapest facility, whereas the
      intended loop assigns every client to its cheapest facility. */
  lemma GreedyAsWrittenFromZero(d: Instance, cells: seq<seq<int>>, facs: seq<nat>, list: seq<nat>)
    requires CellsShaped(d, cells) && AllZero(cells) && |cells| > 0
    ensures GreedyNetAsWritten(d, NetState(cells, facs, list))
            == TypeError(0, NetState(cells[0 := cells[0][FirstMin(d.cost[0]) := 1]], facs, [0]))
    ensures NewlyAssigned(d, cells, |cells|) == Range(|cells|)
  {
    ZeroReconciled(cells, facs, list);
    var s := NetState(cells, facs, []);
    assert !MarkedCheapest(d, cells, 0);
    GreedyAsWrittenOutcome(d, s, 0);
    GreedyAsWrittenFailure(d, s, 0);
    NewlyAssignedFromZero(d, cells, |cells|);
  }
}
