/** The mutable net and the actions on it (src/network.py).

    `Action.__init__` takes two SHALLOW copies of the caller's net, so the
    caller, `old_net` and `new_net` share one connection matrix and one pair
    of lists; only the cached `total_cost` is per object. The model keeps one
    `Net` that each action updates in place, and gives the `Action` the two
    per-copy totals: `oldTotal` (old_net.total_cost, never recomputed) and
    `newTotal` (new_net.total_cost, written by `calc_cost`). The caller's own
    cached total is left as it was, as in the source. */
module Network {
  import opened Common
  import opened Entities
  import opened NetSpec

  /** One uniform result for every action: the feasibility flag and the
      balance `old cached total - newly computed cost` (positive when the
      cost went down). The source returns the `Action` object on success and
      a `(False, old_net, balance)` tuple on failure. */
  datatype Outcome = Outcome(feasible: bool, balance: real)

  /** pandas `astype(int)`: truncation toward zero. */
  function Truncate(x: real): int
  {
    if x >= 0.0 then x.Floor else -((-x).Floor)
  }

  class Net {
    const id: int
    /** The importer's data, read-only (the source also reads a module-global
        `data`, taken here to be this one). */
    const data: Instance
    /** Row per client, column per facility; updated cell by cell, never replaced. */
    const connectionMatrix: array2<int>
    var openedFacilities: seq<nat>
    var assignedClients: seq<nat>
    var totalCost: real

    ghost predicate Valid()
      reads this`openedFacilities, this`assignedClients
    {
      && data.Valid()
      && connectionMatrix.Length0 == |data.cost|
      && connectionMatrix.Length1 == |data.facilities|
      && Below(openedFacilities, |data.facilities|)
      && Below(assignedClients, |data.cost|)
    }

    /** The connection matrix as a value. */
    function Cells(): (cells: seq<seq<int>>)
      reads connectionMatrix
      ensures |cells| == connectionMatrix.Length0
      ensures forall c :: 0 <= c < |cells| ==> |cells[c]| == connectionMatrix.Length1
      ensures forall c, j :: 0 <= c < |cells| && 0 <= j < |cells[c]| ==> cells[c][j] == connectionMatrix[c, j]
    {
      seq(connectionMatrix.Length0, c requires 0 <= c < connectionMatrix.Length0 reads connectionMatrix =>
        seq(connectionMatrix.Length1, j requires 0 <= j < connectionMatrix.Length1 reads connectionMatrix =>
          connectionMatrix[c, j]))
    }

    /** The matrix and both lists as a value. */
    function State(): (s: NetState)
      reads this`openedFacilities, this`assignedClients, connectionMatrix
      ensures Valid() ==> WellShaped(data, s)
    {
      NetState(Cells(), openedFacilities, assignedClients)
    }

    /** `Net.__init__`: the matrix starts as the cost matrix truncated to
        integers and is then cleared by `initilize`. */
    constructor (id: int, data: Instance)
      requires data.Valid()
      ensures this.id == id && this.data == data && fresh(connectionMatrix)
      ensures Valid() && State() == InitState(data) && totalCost == 0.0
    {
      this.id := id;
      this.data := data;
      connectionMatrix := new int[|data.cost|, |data.facilities|]((c, j)
        requires 0 <= c < |data.cost| && 0 <= j < |data.facilities| => Truncate(data.cost[c][j]));
      openedFacilities := [];
      assignedClients := [];
      totalCost := 0.0;
      new;
      Initialize();
    }

    /** `initilize`: every cell 0, every facility opened, nobody assigned. */
    method Initialize()
      requires Valid()
      modifies this, connectionMatrix
      ensures Valid() && State() == InitState(data)
      ensures totalCost == old(totalCost)
    {
      forall c, j | 0 <= c < connectionMatrix.Length0 && 0 <= j < connectionMatrix.Length1 {
        connectionMatrix[c, j] := 0;
      }
      openedFacilities := Range(|data.facilities|);
      assignedClients := [];
      forall c | 0 <= c < |Cells()|
        ensures Cells()[c] == InitState(data).cells[c]
      {
      }
    }

    /** The accumulator loops of `calc_cost`, without storing the result. */
    method ComputeCost() returns (total: real)
      requires Valid()
      ensures total == Cost(data, State())
    {
      var fixedCost := 0.0;
      for i := 0 to |openedFacilities|
        invariant fixedCost == FixedCost(data, openedFacilities[..i])
      {
        assert openedFacilities[..i + 1][..i] == openedFacilities[..i];
        fixedCost := fixedCost + data.facilities[openedFacilities[i]].costOpen;
      }
      var variableCost := 0.0;
      for i := 0 to |assignedClients|
        invariant variableCost == VariableCost(data, Cells(), assignedClients[..i])
      {
        assert assignedClients[..i + 1][..i] == assignedClients[..i];
        var c := assignedClients[i];
        var facIdx := FirstMax(Cells()[c]);
        variableCost := variableCost + data.cost[c][facIdx];
      }
      assert openedFacilities[..|openedFacilities|] == openedFacilities;
      assert assignedClients[..|assignedClients|] == assignedClients;
      total := fixedCost + variableCost;
    }

    /** `calc_cost`: stores the total in the cached `total_cost` and returns it. */
    method CalcCost() returns (total: real)
      requires Valid()
      modifies this`totalCost
      ensures total == Cost(data, State()) && totalCost == total
    {
      total := ComputeCost();
      totalCost := total;
    }

    /** `calc_agg_demand_facility`: loops over the clients of column `f`. */
    method CalcAggDemandFacility(f: nat) returns (aggDemand: real)
      requires Valid() && f < |data.facilities|
      ensures aggDemand == AggDemand(data, Cells(), f)
    {
      var assignedCli := GetAssignedCliToFac(f);
      aggDemand := 0.0;
      for i := 0 to |assignedCli|
        invariant aggDemand == DemandSum(data, assignedCli[..i])
      {
        assert assignedCli[..i + 1][..i] == assignedCli[..i];
        aggDemand := aggDemand + data.clients[assignedCli[i]].demand;
      }
      assert assignedCli[..|assignedCli|] == assignedCli;
      ColumnClientsDemand(data, Cells(), f, |Cells()|);
    }

    /** `check_valid`: false when the matrix sum differs from the number of
        clients, or when some opened facility's aggregate demand exceeds its
        capacity; true otherwise. */
    method CheckValid() returns (valid: bool)
      requires Valid()
      ensures valid <==> IsValid(data, State())
    {
      if MatrixSum(Cells()) != |data.clients| {
        return false;
      }
      for i := 0 to |openedFacilities|
        invariant forall k :: 0 <= k < i ==>
                    AggDemand(data, Cells(), openedFacilities[k]) <= data.facilities[openedFacilities[k]].capacity
      {
        var facility := openedFacilities[i];
        var aggDemand := CalcAggDemandFacility(facility);
        if data.facilities[facility].capacity < aggDemand {
          return false;
        }
      }
      return true;
    }

    /** `check_complete`: first rewrites the client list to the clients with
        a 1 in their row when the two differ as sets, then reports whether
        every client of the data is listed. */
    method CheckComplete() returns (complete: bool)
      requires Valid()
      modifies this`assignedClients
      ensures Valid()
      ensures assignedClients == Reconciled(old(State()))
      ensures Elems(assignedClients) == Elems(RowClients(Cells()))
      ensures complete <==> forall c :: c in assignedClients <==> 0 <= c < |data.clients|
    {
      var listClients := GetAssignedClients();
      if Elems(assignedClients) != Elems(listClients) {
        assignedClients := listClients;
      }
      complete := Elems(assignedClients) == Elems(Range(|data.clients|));
      ElemsRange(assignedClients, |data.clients|);
    }

    /** `dummy_greedy_net`: for each client in input order, assign it to the
        first facility of minimum cost in its row. Capacity is never
        consulted. The source rebinds `self` to each successful action's
        `new_net`; here the receiver takes over that copy's cached total. */
    method DummyGreedyNet()
      requires Valid() && |data.clients| == |data.cost|
      modifies this`assignedClients, this`totalCost, connectionMatrix
      ensures Valid() && openedFacilities == old(openedFacilities)
      ensures Cells() == GreedyCells(data, old(Cells()), |data.cost|)
      ensures assignedClients == Reconciled(old(State())) + NewlyAssigned(data, old(Cells()), |data.cost|)
      ensures totalCost == if NewlyAssigned(data, old(Cells()), |data.cost|) == [] then old(totalCost)
                           else Cost(data, State())
    {
      ghost var cells0 := Cells();
      var _ := CheckComplete();
      assert GreedyCells(data, cells0, 0) == cells0;
      AssignAllCheapest(cells0, assignedClients, totalCost);
      assert Reconciled(State()) == assignedClients;
      var _ := CheckComplete();
    }

    /** The loop of `dummy_greedy_net` over every client in input order. */
    method AssignAllCheapest(ghost cells0: seq<seq<int>>, ghost base: seq<nat>, ghost total0: real)
      requires GreedyProgress(cells0, base, total0, 0) && |cells0| == |data.clients|
      modifies this`assignedClients, this`totalCost, connectionMatrix
      ensures GreedyProgress(cells0, base, total0, |cells0|)
      ensures openedFacilities == old(openedFacilities)
    {
      for c := 0 to |data.clients|
        invariant GreedyProgress(cells0, base, total0, c)
        invariant openedFacilities == old(openedFacilities)
      {
        GreedyVisit(c, cells0, base, total0);
      }
    }

    /** After the first `c` turns of the loop of `dummy_greedy_net` from the
        matrix `cells0` and the list `base`: the first `c` rows are marked at
        their cheapest facility, the newly assigned clients are appended, and
        the cached total is recomputed once some client was assigned. */
    ghost predicate GreedyProgress(cells0: seq<seq<int>>, base: seq<nat>, total0: real, c: nat)
      reads this`openedFacilities, this`assignedClients, this`totalCost, connectionMatrix
    {
      && Valid() && CellsShaped(data, cells0) && c <= |cells0|
      && Cells() == GreedyCells(data, cells0, c)
      && assignedClients == base + NewlyAssigned(data, cells0, c)
      && Elems(assignedClients) == Elems(RowClients(Cells()))
      && totalCost == if NewlyAssigned(data, cells0, c) == [] then total0 else Cost(data, State())
    }

    /** One turn of the loop of `dummy_greedy_net`: client `c` goes to its
        cheapest facility unless already there. */
    method GreedyVisit(c: nat, ghost cells0: seq<seq<int>>, ghost base: seq<nat>, ghost total0: real)
      requires GreedyProgress(cells0, base, total0, c) && c < |cells0|
      modifies this`assignedClients, this`totalCost, connectionMatrix
      ensures GreedyProgress(cells0, base, total0, c + 1)
      ensures openedFacilities == old(openedFacilities)
    {
      GreedyStep(data, cells0, c, openedFacilities, assignedClients);
      ghost var before := State();
      ghost var na := NewlyAssigned(data, cells0, c);
      ghost var m := FirstMin(data.cost[c]);
      assert connectionMatrix[c, m] == cells0[c][m];
      AssignCheapest(c);
      if cells0[c][m] != 1 {
        assert State() == NetState(GreedyCells(data, cells0, c + 1), openedFacilities, before.assignedClients + [c]);
        AppendAssoc(base, na, [c]);
        assert NewlyAssigned(data, cells0, c + 1) != [];
      }
    }

    /** `get_assigned_cli_to_fac`: the clients with a 1 in column `f`, in row order. */
    method GetAssignedCliToFac(f: nat) returns (list: seq<nat>)
      requires Valid() && f < |data.facilities|
      ensures list == ColumnClients(Cells(), f)
      ensures forall c :: c in list <==> 0 <= c < connectionMatrix.Length0 && connectionMatrix[c, f] == 1
    {
      list := [];
      for c := 0 to connectionMatrix.Length0
        invariant list == ColumnClientsUpTo(Cells(), f, c)
      {
        if connectionMatrix[c, f] == 1 {
          list := list + [c];
        }
      }
    }

    /** `get_assigned_clients`: the clients with a 1 in their row, in row order. */
    method GetAssignedClients() returns (list: seq<nat>)
      requires Valid()
      ensures list == RowClients(Cells())
      ensures forall c :: c in list <==> 0 <= c < connectionMatrix.Length0 && exists j :: 0 <= j < connectionMatrix.Length1 && connectionMatrix[c, j] == 1
    {
      list := [];
      for c := 0 to connectionMatrix.Length0
        invariant list == RowClientsUpTo(Cells(), c)
      {
        var any := false;
        for j := 0 to connectionMatrix.Length1
          invariant any <==> 1 in Cells()[c][..j]
        {
          assert Cells()[c][..j + 1] == Cells()[c][..j] + [connectionMatrix[c, j]];
          any := any || connectionMatrix[c, j] == 1;
        }
        assert Cells()[c][..connectionMatrix.Length1] == Cells()[c];
        if any {
          list := list + [c];
        }
      }
    }

    /** The removal loop of `close_fac`: `list.remove` of each client, in order. */
    method RemoveClients(list: seq<nat>)
      requires Valid() && multiset(list) <= multiset(assignedClients)
      modifies this`assignedClients
      ensures Valid() && assignedClients == RemoveEach(old(assignedClients), list)
    {
      var start, remaining := assignedClients, assignedClients;
      assert list[..0] == [];
      for i := 0 to |list|
        invariant multiset(list[..i]) <= multiset(start)
        invariant remaining == RemoveEach(start, list[..i])
      {
        RemoveEachStep(start, list, i);
        remaining := RemoveFirst(remaining, list[i]);
      }
      assert list[..|list|] == list;
      RemoveEachBounded(start, list, |data.cost|);
      assignedClients := remaining;
    }

    /** The rest of `close_fac` on an opened facility: column `f` is set to
        0 and `f` leaves the opened list. */
    method ClearFacility(f: nat)
      requires Valid() && f < |data.facilities| && f in openedFacilities
      modifies this`openedFacilities, connectionMatrix
      ensures Valid() && Cells() == ClearColumn(old(Cells()), f)
      ensures openedFacilities == RemoveFirst(old(openedFacilities), f)
    {
      forall c | 0 <= c < connectionMatrix.Length0 {
        connectionMatrix[c, f] := 0;
      }
      ghost var facs := openedFacilities;
      openedFacilities := RemoveFirst(openedFacilities, f);
      forall i | 0 <= i < |openedFacilities|
        ensures openedFacilities[i] < |data.facilities|
      {
        assert openedFacilities[i] in multiset(facs);
      }
      forall c | 0 <= c < |Cells()|
        ensures Cells()[c] == ClearColumn(old(Cells()), f)[c]
      {
      }
    }

    /** The state change of `close_fac` on an opened facility: its clients
        leave the client list, its column is cleared, it leaves the opened
        list. */
    method Close(f: nat)
      requires Valid() && f < |data.facilities| && f in openedFacilities
      requires multiset(ColumnClients(Cells(), f)) <= multiset(assignedClients)
      modifies this`openedFacilities, this`assignedClients, connectionMatrix
      ensures Valid() && State() == CloseState(old(State()), f)
    {
      var listAssignedCli := GetAssignedCliToFac(f);
      RemoveClients(listAssignedCli);
      ClearFacility(f);
    }

    /** The state change of `assign_cli_to_fac`: cell (c, f) becomes 1 and
        `c` is appended to the client list. */
    method Assign(c: nat, f: nat)
      requires Valid() && c < |data.cost| && f < |data.facilities|
      modifies this`assignedClients, connectionMatrix
      ensures Valid() && State() == AssignState(old(State()), c, f)
    {
      ghost var s0 := State();
      connectionMatrix[c, f] := 1;
      assignedClients := assignedClients + [c];
      forall i | 0 <= i < |Cells()|
        ensures Cells()[i] == AssignState(s0, c, f).cells[i]
      {
      }
    }

    /** The body of the greedy loop for one client: an `Action` assigning
        the client to its cheapest facility; when it succeeds the net takes
        over the action's recomputed total. */
    method AssignCheapest(c: nat)
      requires Valid() && c < |data.cost|
      modifies this`assignedClients, this`totalCost, connectionMatrix
      ensures Valid() && openedFacilities == old(openedFacilities)
      ensures old(connectionMatrix[c, FirstMin(data.cost[c])]) == 1 ==>
                State() == old(State()) && totalCost == old(totalCost)
      ensures old(connectionMatrix[c, FirstMin(data.cost[c])]) != 1 ==>
                && State() == AssignState(old(State()), c, FirstMin(data.cost[c]))
                && totalCost == Cost(data, State())
    {
      var facName := FirstMin(data.cost[c]);
      var action := new Action(this);
      var outcome := action.AssignCliToFac(c, facName);
      if outcome.feasible {
        totalCost := action.newTotal;
      }
    }
  }

  class Action {
    /** The net seen through both `old_net` and `new_net`. */
    const net: Net
    /** `old_net.total_cost`: the caller's cached total at creation. */
    const oldTotal: real
    /** `new_net.total_cost`: recomputed by a successful action. */
    var newTotal: real
    var feasible: bool
    var balance: real

    constructor (net: Net)
      ensures this.net == net && oldTotal == net.totalCost && newTotal == net.totalCost
      ensures feasible && balance == 0.0
    {
      this.net := net;
      oldTotal := net.totalCost;
      newTotal := net.totalCost;
      feasible := true;
      balance := 0.0;
    }

    /** `open_fac`: refused when already opened; otherwise the facility is
        appended, and if the net then fails `check_valid` the action is
        infeasible with the facility left appended (the list is shared). */
    method OpenFac(f: nat) returns (outcome: Outcome)
      requires net.Valid() && f < |net.data.facilities|
      modifies this, net`openedFacilities
      ensures net.Valid() && outcome == Outcome(feasible, balance)
      ensures net.totalCost == old(net.totalCost)
      ensures f in old(net.openedFacilities) ==>
                && !feasible && balance == old(balance) && newTotal == old(newTotal)
                && net.State() == old(net.State())
      ensures f !in old(net.openedFacilities) ==> net.State() == OpenState(old(net.State()), f)
      ensures f !in old(net.openedFacilities) && !IsValid(net.data, net.State()) ==>
                !feasible && balance == old(balance) && newTotal == old(newTotal)
      ensures f !in old(net.openedFacilities) && IsValid(net.data, net.State()) ==>
                && feasible == old(feasible)
                && newTotal == Cost(net.data, net.State()) && balance == oldTotal - newTotal
    {
      if f in net.openedFacilities {
        feasible := false;
        return Outcome(feasible, balance);
      }
      net.openedFacilities := net.openedFacilities + [f];
      var valid := net.CheckValid();
      if !valid {
        feasible := false;
        return Outcome(feasible, balance);
      }
      newTotal := net.ComputeCost();
      balance := oldTotal - newTotal;
      return Outcome(feasible, balance);
    }

    /** `close_fac`: refused when the facility is not opened; otherwise its
        clients are removed from the client list, its column is cleared and
        it leaves the opened list. No client is reassigned and capacity is
        not checked. */
    method CloseFac(f: nat) returns (outcome: Outcome)
      requires net.Valid() && f < |net.data.facilities|
      requires f in net.openedFacilities ==>
                 multiset(ColumnClients(net.Cells(), f)) <= multiset(net.assignedClients)
      modifies this, net`openedFacilities, net`assignedClients, net.connectionMatrix
      ensures net.Valid() && outcome == Outcome(feasible, balance)
      ensures net.totalCost == old(net.totalCost)
      ensures f !in old(net.openedFacilities) ==>
                && !feasible && balance == old(balance) && newTotal == old(newTotal)
                && net.State() == old(net.State())
      ensures f in old(net.openedFacilities) ==>
                && net.State() == CloseState(old(net.State()), f)
                && feasible == old(feasible)
                && newTotal == Cost(net.data, net.State()) && balance == oldTotal - newTotal
    {
      if f !in net.openedFacilities {
        feasible := false;
        return Outcome(feasible, balance);
      }
      assert multiset(ColumnClients(net.Cells(), f)) <= multiset(net.assignedClients);
      net.Close(f);
      newTotal := net.ComputeCost();
      balance := oldTotal - newTotal;
      return Outcome(feasible, balance);
    }

    /** `assign_cli_to_fac`: refused when cell (c, f) is already 1;
        otherwise that cell becomes 1 and the client is appended to the
        list. Neither capacity nor an existing assignment elsewhere is
        checked. */
    method AssignCliToFac(c: nat, f: nat) returns (outcome: Outcome)
      requires net.Valid() && c < |net.data.cost| && f < |net.data.facilities|
      modifies this, net`assignedClients, net.connectionMatrix
      ensures net.Valid() && outcome == Outcome(feasible, balance)
      ensures net.openedFacilities == old(net.openedFacilities) && net.totalCost == old(net.totalCost)
      ensures old(net.connectionMatrix[c, f]) == 1 ==>
                && !feasible && balance == old(balance) && newTotal == old(newTotal)
                && net.State() == old(net.State())
      ensures old(net.connectionMatrix[c, f]) != 1 ==>
                && net.State() == AssignState(old(net.State()), c, f)
                && feasible == old(feasible)
                && newTotal == Cost(net.data, net.State()) && balance == oldTotal - newTotal
    {
      if net.connectionMatrix[c, f] == 1 {
        feasible := false;
        return Outcome(feasible, balance);
      }
      net.Assign(c, f);
      newTotal := net.ComputeCost();
      balance := oldTotal - newTotal;
      return Outcome(feasible, balance);
    }
  }
}
