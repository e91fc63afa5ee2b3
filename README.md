# Single-source capacitated facility location: net engine and instance importer

This project models the core of a small Python toolkit for the single-source
capacitated facility location problem (CFLP-SS). It has two parts, both
imperative in the original and kept imperative here.

- **The net engine** (`src/network.py`). A `Net` has a client × facility 0/1
  connection matrix, a list of opened facilities, a list of assigned clients
  and a cached total cost. It answers queries: the assigned clients, the
  clients of one facility, aggregate demand, cost, validity and completeness.
  It also builds a greedy net. An `Action` opens or closes a facility, or
  assigns a client to a facility, and reports a feasibility flag and a cost
  balance.
- **The instance importer** (`src/importer.py`). It reads a benchmark file:
  the header counts, then the facility lines, then the demand lines, then a
  cost block in one of two layouts. It indexes facilities and clients by id,
  and derives the marginal-cost matrix.

Modules:

- `Common` (`common.dfy`): list helpers that carry Python and pandas meaning.
  - `RemoveFirst` is `list.remove`.
  - `FirstMin` and `FirstMax` are `idxmin` and `idxmax`; the first index wins on ties.
- `Entities` (`entities.dfy`): facilities, clients, and the `Instance` that a net reads.
- `NetSpec` (`netspec.dfy`): a net as a value (`NetState`), the quantities the
  queries compute, the state each action leaves behind, and lemmas about cost
  and about the bookkeeping invariant `Consistent`.
- `Network` (`network.dfy`): the classes `Net` (over an `array2<int>`) and
  `Action`. Each method is proved against `NetSpec`.
- `InstanceFile` (`instancefile.dfy`): the file format over lines that are
  already split into numbers, the instance-type path component, and the
  marginal-cost formula.
- `Importer` (`importer.dfy`): the class `Importer`. Its loops are proved
  against `InstanceFile`.

Facilities and clients are referred to by 0-based index. Facility `f` has id
`f+1` and is column `f`; client `c` has id `c+1` and is row `c`.

`Action.__init__` takes shallow copies (`copy.copy`). So the caller,
`old_net` and `new_net` share one matrix and one pair of lists, and only the
cached `total_cost` belongs to each copy. The model therefore has one `Net`
that every action updates in place. The `Action` keeps two values:

- `oldTotal`: the caller's cached total;
- `newTotal`: the total that `calc_cost` recomputes on the copy.

The caller's own cached total stays as it was. Every action returns
`Outcome(feasible, balance)`, where the balance is `oldTotal - newTotal`.
The original returns the `Action` object on success and a tuple on failure.

The documentation of `dummy_greedy_net` promises a valid net, one whose
demand restrictions are not violated. The code never looks at capacity, so
that promise does not hold. The model follows the code, and
`NetSpec.GreedyIgnoresCapacity` gives an instance where the greedy net fails
`check_valid`.

## Model

| member | source | states |
|---|---|---|
| Common.RemoveFirst | src/network.py:259 | `list.remove`: removes exactly one occurrence of `x`, the first one, and keeps the order of the rest |
| Common.RemoveEach | src/network.py:257-259 | removing each listed client in turn takes away exactly their multiset |
| Common.FirstMin | src/network.py:54 | `idxmin`: an index of the row minimum, with every earlier entry strictly larger |
| Common.FirstMax | src/network.py:83 | `idxmax`: an index of the row maximum, with every earlier entry strictly smaller |
| NetSpec.IsValid | src/network.py:100-114 | `check_valid`'s test: the number of 1-cells equals the number of clients and no opened facility's aggregate demand exceeds its capacity (no contract of its own; `GreedyFromZero`, `GreedyIgnoresCapacity` and `Net.CheckValid` state its properties) |
| NetSpec.InitState | src/network.py:36-43 | after `initilize`, every cell is 0, the opened list is every facility in order, and the client list is empty |
| NetSpec.InitConsistent | src/network.py:36-43 | a fresh net satisfies the bookkeeping invariant, and its cost is the opening cost of all facilities |
| NetSpec.Cost | src/network.py:74-87 | the total cost: opening costs of the opened facilities plus, per listed client, the cost at the first maximum of its row (no contract of its own; the cost lemmas below and `Net.ComputeCost` state its properties) |
| NetSpec.FixedCostAppend | src/network.py:78-79 | the fixed cost of two concatenated facility lists is the sum of their fixed costs |
| NetSpec.FixedCostRemove | src/network.py:78-79 | removing one occurrence of an opened facility takes exactly its opening cost off the fixed cost |
| NetSpec.VariableCostFrame | src/network.py:81-85 | the variable cost depends only on the rows of the listed clients |
| NetSpec.VariableCostSnoc | src/network.py:81-85 | listing one more client adds its cost at the first maximum of its row |
| NetSpec.ColumnClientsUpTo | src/network.py:149-157 | a client is in the list iff its cell in column `f` is 1; the list is strictly increasing |
| NetSpec.RowClientsUpTo | src/network.py:139-147 | a client is in the list iff its row holds a 1; the list is strictly increasing, so it has no duplicates |
| NetSpec.ColumnClientsDemand | src/network.py:159-170 | summing demands over the column's client list equals the cell-by-cell aggregate demand |
| NetSpec.EmptyColumnDemand | src/network.py:159-170 | a column with no 1 has aggregate demand 0 |
| NetSpec.AssignState | src/network.py:285-288 | after an assignment only cell (c, f) changes, it becomes 1, and `c` is appended to the client list |
| NetSpec.AssignConsistent | src/network.py:281-288 | assigning over a 0-cell keeps the bookkeeping invariant |
| NetSpec.AssignFreshClientCost | src/network.py:285-292 | assigning a client whose row is all 0 raises the cost by exactly `cost(c, f)`, so the balance is `-cost(c, f)` when the cached total was current |
| NetSpec.OpenState | src/network.py:234 | opening appends `f` to the opened list and changes nothing else |
| NetSpec.OpenConsistent | src/network.py:229-241 | opening a facility that is not open keeps the invariant and adds exactly its opening cost |
| NetSpec.ClearColumn | src/network.py:261 | column `f` becomes all 0 and every other cell is unchanged |
| NetSpec.ConsistentCanClose | src/network.py:257-259 | on a consistent net, every client of the column can be removed, so `list.remove` never raises |
| NetSpec.CloseCounts | src/network.py:257-259 | closing removes each client with a 1 in column `f` once and leaves the other counts alone |
| NetSpec.CloseState | src/network.py:256-263 | the state `close_fac` leaves (no contract of its own; `CloseStateEffect` and `CloseConsistent` state its properties) |
| NetSpec.CloseStateEffect | src/network.py:256-263 | after closing, no client has a 1 in column `f`, every other cell is kept, `f` leaves the opened list once, and each former client of `f` leaves the client list once |
| NetSpec.CloseRowSums | src/network.py:257-263 | after closing, each client's row sum still equals its count in the client list |
| NetSpec.CloseConsistent | src/network.py:256-263 | closing an opened facility keeps the bookkeeping invariant |
| NetSpec.CloseWellShaped | src/network.py:256-263 | closing keeps every listed facility and client in range |
| NetSpec.CloseEmptyFacilityCost | src/network.py:256-271 | closing a facility with no clients leaves matrix and client list unchanged and lowers the cost by exactly its opening cost |
| NetSpec.Reconciled | src/network.py:124-128 | `check_complete`'s repair: the result holds, as a set, exactly the clients with a 1 in their row, and it is the list itself when the two already agree as sets |
| NetSpec.ConsistentIsReconciled | src/network.py:124-128 | on a consistent net, `check_complete` never rewrites the client list |
| NetSpec.ZeroReconciled | src/network.py:124-128 | on the all-zero matrix, `check_complete` leaves an empty client list |
| NetSpec.GreedyCells | src/network.py:53-57 | after `k` clients, each of the first `k` rows has a 1 at its first cheapest facility and every other cell is unchanged |
| NetSpec.NewlyAssigned | src/network.py:53-57 | the clients the greedy loop appends are exactly those whose cheapest cell was not already 1 |
| NetSpec.NewlyAssignedFromZero | src/network.py:53-57 | from the all-zero matrix, every client is appended, in input order |
| NetSpec.GreedyCellsNext | src/network.py:54-55 | one more turn marks the next row, still untouched, at its cheapest facility |
| NetSpec.RowClientsMark | src/network.py:285-288 | writing a 1 in row `k` and listing `k` keeps the list equal, as a set, to the clients with a 1 |
| NetSpec.GreedyStep | src/network.py:54-57 | one greedy turn is refused with no change when the cheapest cell is already 1; otherwise it is the assignment that yields the next greedy matrix |
| NetSpec.GreedyRowsOne | src/network.py:45-57 | from the all-zero matrix, every greedy row holds exactly one 1 |
| NetSpec.GreedyRowMax | src/network.py:83 | in that matrix, `idxmax` of a row is the row's `idxmin` cost facility |
| NetSpec.CheapestVariableCost | src/network.py:81-85 | when each row's first maximum is its cheapest facility, the variable cost is the sum of the row minima |
| NetSpec.GreedyVariableCost | src/network.py:81-85 | the greedy net from zero has variable cost equal to the sum of the row minima |
| NetSpec.GreedyFromZero | src/network.py:45-59 | from zero, every client is assigned exactly once at its cheapest facility; the invariant holds; the count test of `check_valid` passes iff there are as many clients as cost rows |
| NetSpec.GreedyCost | src/network.py:45-90 | the greedy net from zero costs the opening costs plus the sum of the row minima |
| NetSpec.GreedyAsWritten | src/network.py:53-57 | the loop as written over clients `k..`: it never touches the opened list, and it raises KeyError, with the net unchanged, exactly at the first client that has no cost row |
| NetSpec.GreedyNetAsWritten | src/network.py:52-57 | `check_complete`, then the loop as written from client 0: the opened list is kept, and the matrix changes only when the run ends in TypeError |
| NetSpec.GreedyAsWrittenOutcome | src/network.py:53-57 | the loop as written finishes normally iff every client's cheapest cell is already 1 and every client has a cost row; it raises KeyError iff every client with a cost row is already marked but some client has none; in both cases the net is unchanged |
| NetSpec.GreedyAsWrittenFailure | src/network.py:53-57 | when the loop as written raises TypeError, it does so at the first client whose cheapest cell is not 1, after setting that cell and appending the client to the shared client list |
| NetSpec.GreedyAsWrittenFromZero | src/network.py:52-57 | on a net whose cells are all 0, whatever its lists, the first `check_complete` empties the client list and the loop as written raises at client 0, leaving exactly that client assigned at its cheapest facility; the intended loop assigns every client |
| NetSpec.GreedyIgnoresCapacity | src/network.py:45-57 | an instance where the greedy net fails `check_valid`: two clients of demand 1 share a cheapest facility of capacity 1, against the documented promise that the greedy net is valid |
| Network.Net.constructor | src/network.py:26-34 | a new net is in the `initilize` state with cached total 0 |
| Network.Net.Initialize | src/network.py:36-43 | every cell is 0, every facility is opened, the client list is empty, and the cached total is untouched |
| Network.Net.ComputeCost | src/network.py:74-87 | the two accumulator loops compute the fixed cost over opened facilities plus the first-maximum cost per listed client |
| Network.Net.CalcCost | src/network.py:61-90 | stores and returns that cost |
| Network.Net.CalcAggDemandFacility | src/network.py:159-170 | returns the aggregate demand of column `f` |
| Network.Net.CheckValid | src/network.py:93-114 | true iff the number of 1-cells equals the number of clients and no opened facility exceeds its capacity |
| Network.Net.CheckComplete | src/network.py:116-137 | replaces the client list by the row clients when they differ as sets; true iff every client is listed |
| Network.Net.GetAssignedClients | src/network.py:139-147 | returns, in row order, exactly the clients with a 1 in their row |
| Network.Net.GetAssignedCliToFac | src/network.py:149-157 | returns, in row order, exactly the clients with a 1 in column `f` |
| Network.Net.RemoveClients | src/network.py:257-259 | the client list after `list.remove` of each given client, in order |
| Network.Net.ClearFacility | src/network.py:261-263 | column `f` is cleared and the first occurrence of `f` leaves the opened list |
| Network.Net.Close | src/network.py:256-263 | the net moves to the close state of `f` |
| Network.Net.Assign | src/network.py:285-288 | the net moves to the assign state of (c, f) |
| Network.Net.AssignCheapest | src/network.py:54-57 | one greedy turn: no change when the cheapest cell is already 1; otherwise the assignment, with the recomputed total taken over |
| Network.Net.GreedyVisit | src/network.py:54-57 | one turn moves the greedy progress from `c` to `c + 1` clients |
| Network.Net.AssignAllCheapest | src/network.py:53-57 | the loop reaches the greedy matrix and client list for all clients |
| Network.Net.DummyGreedyNet | src/network.py:45-59 | the intended greedy net: matrix `GreedyCells`, client list = reconciled list followed by the newly assigned clients, opened list unchanged, and the total recomputed when someone was assigned |
| Network.Action.constructor | src/network.py:207-213 | feasible, balance 0, both cached totals taken from the net |
| Network.Action.OpenFac | src/network.py:223-244 | refused with no change when already open; otherwise `f` is appended, and the action is infeasible if `check_valid` then fails (the facility stays appended) or has balance = old total − new cost |
| Network.Action.CloseFac | src/network.py:246-273 | refused with no change when not open; otherwise the close state, with balance = old total − new cost; nobody is reassigned |
| Network.Action.AssignCliToFac | src/network.py:275-294 | refused with no change when cell (c, f) is 1; otherwise the assign state, with balance = old total − new cost; capacity and other assignments are not checked |
| InstanceFile.Split | src/importer.py:29 | `str.split`: at least one piece, and no piece contains the separator |
| InstanceFile.SplitJoin | src/importer.py:29 | splitting the join of separator-free pieces gives back the pieces |
| InstanceFile.JoinSplit | src/importer.py:29 | joining the pieces of a string gives back the string |
| InstanceFile.InstanceTypeOf | src/importer.py:29 | the instance type of `root/kind/...` is `kind` |
| InstanceFile.InstanceType | src/importer.py:29 | `path.split("/")[1]`: there is an instance type iff the path has a `/` (otherwise IndexError), and it never contains a `/` |
| InstanceFile.FlattenSplit | src/importer.py:115-117 | the tokens of consecutive line ranges concatenate |
| InstanceFile.ParsedFacilities | src/importer.py:106-111 | facility `i` (1-based) takes capacity and opening cost from line `i` |
| InstanceFile.DemandEnd | src/importer.py:114-122 | the demand block ends at the first line end where at least `m` demands are read; None when the file ends first (the endless loop) |
| InstanceFile.FlattenPastEnd | src/importer.py:115-117 | past the end of the file, reading adds no demands |
| InstanceFile.ClientsOf | src/importer.py:118-122 | client `c` has id `c+1` and the `c`-th demand read |
| InstanceFile.ReadRow | src/importer.py:128-132 | a cost row is one line, extended by exactly the next line iff it is shorter than the width |
| InstanceFile.ReadRows | src/importer.py:126-145 | `count` rows, using between `count` and `2*count` lines |
| InstanceFile.Transpose | src/importer.py:146 | the transpose has `width` rows of `|rows|` values each |
| InstanceFile.TransposeTwice | src/importer.py:146 | transposing twice gives the matrix back |
| InstanceFile.ParsedCost | src/importer.py:125-146 | one cost row per announced client and one column per facility, in either layout |
| InstanceFile.PerFacilityEntry | src/importer.py:136-146 | in the per-facility layout, entry [c][f] is the `c`-th value of facility `f`'s row |
| InstanceFile.ParsedInstance | src/importer.py:87-150 | the instance a well-formed file describes: a valid instance with `nf` facilities, `m` cost rows and at least `m` clients |
| InstanceFile.ParsedInstanceValid | src/importer.py:87-150 | a well-formed file gives `nf` facilities, at least `m` clients and `m` cost rows of `nf` values, with ids from 1 |
| InstanceFile.MinExcept | src/importer.py:164-165 | the minimum over every column but `f` is attained there and bounds those columns from below |
| InstanceFile.MarginalRow | src/importer.py:162-168 | one marginal cost per column |
| InstanceFile.MarginalMatrix | src/importer.py:160-173 | one marginal row per cost row, in the same order and of the same width |
| InstanceFile.MarginalSign | src/importer.py:163-167 | `marginal[c][f] >= 0` iff `f` attains the row minimum, and it is negative iff some facility is cheaper |
| InstanceFile.MarginalUniqueMin | src/importer.py:163-167 | a facility strictly cheaper than all others has a positive marginal cost |
| Importer.Importer.constructor | src/importer.py:14-31 | the instance type comes from the path; the data equals the parsed instance; both dictionaries index by id; the marginal matrix is computed |
| Importer.Importer.ImportFile | src/importer.py:87-150 | facilities, clients and cost matrix equal the parsed instance, and `fac_dict`/`cli_dict` map every id to its entity |
| Importer.Importer.ReadFacilities | src/importer.py:104-111 | block 2 gives the parsed facilities, indexed by id |
| Importer.Importer.ReadDemands | src/importer.py:112-122 | block 3 gives the parsed clients, indexed by id, at least `m` of them, and stops at the block's end |
| Importer.Importer.AddClients | src/importer.py:117-122 | one demand line adds one client per demand, with consecutive ids |
| Importer.Importer.ReadCostRows | src/importer.py:126-145 | the loop reads exactly the rows `ReadRows` describes |
| Importer.Importer.ReadCostBlock | src/importer.py:124-146 | block 4 gives the parsed cost matrix: per client for `Holmberg_Instances`, otherwise per facility and transposed |
| Importer.Importer.CalculateMarginalCost | src/importer.py:152-176 | the marginal matrix is `MarginalMatrix` of the cost matrix |

## Left out

- `draw_net` (pyvis rendering), `action_decorator`, every `print` and the `verbose` flag: they only draw or log.
- `get_input` and `instance_selector`: interactive terminal input, `os.listdir` and `sys.exit`. The constructor therefore requires a non-empty path.
- File opening, `readline`, `str.split` of lines, and `float()`/`int()` tokenisation. The importer takes lines already split into numbers. A header token counts when it is a non-negative whole number. Past the end of the file, a line reads as empty.
- pandas itself. DataFrames become sequences and an `array2` indexed by id−1. `idxmin`/`idxmax` keep the first-index tie-break. `astype(int)` is truncation toward zero.
- Floating point: costs, demands and capacities are `real`.
- Importer.Importer.constructor: a path without `/` makes `split("/")[1]` raise IndexError; the constructor requires a path with an instance type, and `InstanceFile.InstanceType` characterises the failing paths.
- Importer.Importer.constructor: files that raise or never finish are excluded by the precondition `WellFormed`. This covers a wrong header, a facility line without exactly two values, a demand block that runs past the end of the file (the original loops forever), and a cost row that does not come out at exactly the announced width: one still short after one continuation line, or one that ends up longer (the `pd.DataFrame` construction raises ValueError on either). `WellFormed` also requires at least two facilities (one facility gives NaN marginal costs) and at least one client (no client gives no cost row, and `pd.concat` of nothing raises).
- Importer.Importer.CalculateMarginalCost: requires at least two columns per row, for the NaN reason above.
- Network.Action.CloseFac: the `ValueError` of `list.remove` on a client that is not listed is excluded by a precondition. `NetSpec.ConsistentCanClose` shows the precondition always holds on a consistent net.
- Network.Action.AssignCliToFac: a client with no cost row (an over-long last demand line yields more clients than cost rows) makes `.loc[client.id, facility.id]` raise KeyError; the action requires a client with a cost row, and `Net.Valid` keeps every listed client among those rows.
- Network.Net.DummyGreedyNet: requires a cost row for every client, since `cost_matrix.loc[client.id]` raises otherwise. It models the intended loop, not the TypeError of the loop as written (see Findings). The rebinding `self = new_net` is modelled by the receiver taking over each successful action's recomputed total.
- The module-global `data` read by `initilize` and `dummy_greedy_net` is taken to be the net's own data.
- `initilize` makes `opened_facilities` the same list object as `data.facilities`, so a later `open_fac`/`close_fac` also edits the importer's list. The model copies the list of facility indices and does not capture that aliasing.
- The caller's own cached `total_cost` is never updated by an action. The model keeps that, and does not model the separate `Action` objects as copies of the net.
- src/heuristic.py (`execute` and `savings` are empty stubs), src/facility.py and src/client.py (plain records; their printing is dropped), and both `__main__` demo blocks.

## Findings

| source | as written | input that shows it | evidently intended | confidence | as-written member | corrected member |
|---|---|---|---|---|---|---|
| src/network.py:55 | `[ok,new_net,balance] = Action(self).assign_cli_to_fac(...)` unpacks a triple, but a successful `assign_cli_to_fac` returns the `Action` object (src/network.py:294), which cannot be unpacked: TypeError right after the first assignment | any fresh net with at least one client: client 1 is assigned to its cheapest facility, then the unpacking raises | every client is assigned to its cheapest facility and the net keeps the last successful copy | not executed | NetSpec.GreedyAsWrittenFromZero | Network.Net.DummyGreedyNet |
