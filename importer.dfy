/** The importer object (src/importer.py): reads an instance file into
    facilities, clients and a cost matrix, each facility and client also
    indexed by id, then derives the marginal-cost matrix. The file arrives as
    lines already split into numeric tokens. */
module Importer {
  import opened Common
  import opened Entities
  import opened InstanceFile

  class Importer {
    var importFilePath: string
    var instanceType: string
    var facilities: seq<Facility>
    var clients: seq<Client>
    /** Row per client, column per facility (per facility, before the final
        transpose of the non-Holmberg layout). */
    var costMatrix: seq<seq<real>>
    var marginalCostMatrix: seq<seq<real>>
    var facDict: map<nat, Facility>
    var cliDict: map<nat, Client>
    var status: bool

    /** `fac_dict[id]` is facility `id` of the list, for exactly the ids 1 .. |facilities|. */
    ghost predicate FacilitiesIndexed()
      reads this`facilities, this`facDict
    {
      && (forall id :: id in facDict <==> 1 <= id <= |facilities|)
      && (forall id :: 1 <= id <= |facilities| ==> facDict[id] == facilities[id - 1])
    }

    /** `cli_dict[id]` is client `id` of the list, for exactly the ids 1 .. |clients|. */
    ghost predicate ClientsIndexed()
      reads this`clients, this`cliDict
    {
      && (forall id :: id in cliDict <==> 1 <= id <= |clients|)
      && (forall id :: 1 <= id <= |clients| ==> cliDict[id] == clients[id - 1])
    }

    /** What a `Net` reads from the importer. */
    function Data(): Instance
      reads this`facilities, this`clients, this`costMatrix
    {
      Instance(facilities, clients, costMatrix)
    }

    /** `Importer(path)` for a path given by the caller: derives the instance
        type, imports the file and computes the marginal costs. */
    constructor (path: string, lines: seq<seq<real>>)
      requires path != "" && InstanceType(path).Some?
      requires WellFormed(lines, InstanceType(path).value == Holmberg)
      ensures importFilePath == path && instanceType == InstanceType(path).value && !status
      ensures Data() == ParsedInstance(lines, instanceType == Holmberg) && Data().Valid()
      ensures FacilitiesIndexed() && ClientsIndexed()
      ensures marginalCostMatrix == MarginalMatrix(costMatrix)
    {
      importFilePath := path;
      facilities := [];
      clients := [];
      costMatrix := [];
      marginalCostMatrix := [];
      facDict := map[];
      cliDict := map[];
      status := false;
      instanceType := InstanceType(path).value;
      new;
      ImportFile(lines);
      CalculateMarginalCost();
    }

    /** `import_file`: the four blocks, in order, appended to the empty lists
        and dictionaries the constructor set up. */
    method ImportFile(lines: seq<seq<real>>)
      requires WellFormed(lines, instanceType == Holmberg)
      requires facilities == [] && clients == [] && costMatrix == []
      requires facDict == map[] && cliDict == map[]
      modifies this`facilities, this`clients, this`costMatrix, this`facDict, this`cliDict
      ensures Data() == ParsedInstance(lines, instanceType == Holmberg) && Data().Valid()
      ensures |costMatrix| >= 1 && TwoColumns(costMatrix)
      ensures FacilitiesIndexed() && ClientsIndexed()
    {
      ghost var d := ParsedInstance(lines, instanceType == Holmberg);
      // block 1: the two counts
      var numberFacilities, numberClients := FacilityCount(lines), ClientCount(lines);
      // block 2: one line per facility
      ReadFacilities(lines, numberFacilities);
      // block 3: demands, until at least numberClients are read
      var pos := ReadDemands(lines, numberFacilities + 1, numberClients);
      // block 4: the cost rows
      ReadCostBlock(lines, pos);
      assert facilities == d.facilities && clients == d.clients && costMatrix == d.cost;
      ParsedInstanceValid(lines, instanceType == Holmberg);
    }

    /** Block 4 by layout: per client for Holmberg instances, otherwise per
        facility and then transposed. */
    method ReadCostBlock(lines: seq<seq<real>>, pos: nat)
      requires WellFormed(lines, instanceType == Holmberg) && pos == CostStart(lines)
      requires costMatrix == []
      modifies this`costMatrix
      ensures costMatrix == ParsedCost(lines, instanceType == Holmberg)
    {
      var numberFacilities, numberClients := FacilityCount(lines), ClientCount(lines);
      if instanceType == Holmberg {
        ReadCostRows(lines, pos, numberClients, numberFacilities);
      } else {
        ReadCostRows(lines, pos, numberFacilities, numberClients);
        assert costMatrix == CostRows(lines, false);
        costMatrix := Transpose(costMatrix, numberClients);
      }
    }

    /** Block 2: facility `id` takes capacity and opening cost from line `id`. */
    method ReadFacilities(lines: seq<seq<real>>, nf: nat)
      requires FacilityLinesOk(lines, nf) && facilities == [] && facDict == map[]
      modifies this`facilities, this`facDict
      ensures facilities == ParsedFacilities(lines, nf) && FacilitiesIndexed()
    {
      for id := 1 to nf + 1
        invariant |facilities| == id - 1
        invariant forall f :: 0 <= f < id - 1 ==>
                    facilities[f] == Facility(f + 1, Line(lines, f + 1)[0], Line(lines, f + 1)[1])
        invariant FacilitiesIndexed()
      {
        var subBlock := Line(lines, id);
        var facility := Facility(id, subBlock[0], subBlock[1]);
        facilities := facilities + [facility];
        facDict := facDict[id := facility];
      }
    }

    /** Block 3: reads demand lines from line `a` while fewer than `m`
        demands are read, giving each demand the next client id from 1 on;
        returns the line after the block. */
    method ReadDemands(lines: seq<seq<real>>, a: nat, m: nat) returns (pos: nat)
      requires DemandEnd(lines, a, a, m).Some? && clients == [] && cliDict == map[]
      modifies this`clients, this`cliDict
      ensures pos == DemandEnd(lines, a, a, m).value
      ensures clients == ClientsOf(Demands(lines, a, m)) && ClientsIndexed()
      ensures |clients| >= m
    {
      ghost var end := DemandEnd(lines, a, a, m).value;
      pos := a;
      var nClient := 1;
      while nClient < m + 1
        invariant a <= pos <= end
        invariant DemandEnd(lines, a, pos, m) == Some(end)
        invariant nClient == |Flatten(lines, a, pos)| + 1
        invariant clients == ClientsOf(Flatten(lines, a, pos)) && ClientsIndexed()
        decreases end - pos
      {
        var demands := Line(lines, pos);
        assert Flatten(lines, a, pos + 1) == Flatten(lines, a, pos) + demands;
        nClient := AddClients(demands, nClient, Flatten(lines, a, pos));
        pos := pos + 1;
      }
    }

    /** One demand line: each demand becomes the client with the next id. */
    method AddClients(demands: seq<real>, first: nat, ghost read: seq<real>) returns (next: nat)
      requires first == |read| + 1 && clients == ClientsOf(read) && ClientsIndexed()
      modifies this`clients, this`cliDict
      ensures next == first + |demands|
      ensures clients == ClientsOf(read + demands) && ClientsIndexed()
    {
      next := first;
      for i := 0 to |demands|
        invariant next == |read| + i + 1
        invariant clients == ClientsOf(read + demands[..i]) && ClientsIndexed()
      {
        assert demands[..i + 1] == demands[..i] + [demands[i]];
        var client := Client(next, demands[i]);
        clients := clients + [client];
        cliDict := cliDict[next := client];
        next := next + 1;
        assert clients == ClientsOf(read + demands[..i + 1]);
      }
      assert demands[..|demands|] == demands;
    }

    /** Block 4: `count` rows of `width` values from line `pos`, each row one
        line extended by the next when short. */
    method ReadCostRows(lines: seq<seq<real>>, pos: nat, count: nat, width: nat)
      requires costMatrix == []
      modifies this`costMatrix
      ensures costMatrix == ReadRows(lines, pos, count, width).0
    {
      var next := pos;
      for k := 0 to count
        invariant costMatrix == ReadRows(lines, pos, k, width).0
        invariant next == ReadRows(lines, pos, k, width).1
      {
        ghost var row := ReadRow(lines, next, width);
        assert ReadRows(lines, pos, k + 1, width) == (costMatrix + [row.0], row.1);
        var costs := Line(lines, next);
        if |costs| < width {
          costs := costs + Line(lines, next + 1);
          next := next + 2;
        } else {
          next := next + 1;
        }
        assert costs == row.0 && next == row.1;
        costMatrix := costMatrix + [costs];
      }
    }

    /** `calculate_marginal_cost`: row by row and column by column, the
        minimum over the other columns minus the cell. */
    method CalculateMarginalCost()
      requires |costMatrix| >= 1 && TwoColumns(costMatrix)
      modifies this`marginalCostMatrix
      ensures marginalCostMatrix == MarginalMatrix(costMatrix)
    {
      var newRowList: seq<seq<real>> := [];
      for c := 0 to |costMatrix|
        invariant newRowList == MarginalMatrix(costMatrix)[..c]
      {
        var row := costMatrix[c];
        var newRow: seq<real> := [];
        for f := 0 to |row|
          invariant newRow == MarginalRow(row)[..f]
        {
          var minInRow := MinExcept(row, f);
          newRow := newRow + [minInRow - row[f]];
        }
        assert newRow == MarginalRow(row);
        assert MarginalMatrix(costMatrix)[..c + 1] == MarginalMatrix(costMatrix)[..c] + [newRow];
        newRowList := newRowList + [newRow];
      }
      assert MarginalMatrix(costMatrix)[..|costMatrix|] == MarginalMatrix(costMatrix);
      marginalCostMatrix := newRowList;
    }
  }
}
