/** The instance file format read by `Importer.import_file`
    (src/importer.py), over lines already split into numeric tokens, and the
    marginal-cost formula of `calculate_marginal_cost`.

    Layout: a header line `nf m`; `nf` facility lines `capacity cost_open`;
    demand lines, as many values per line as they hold, until at least `m`
    demands are read; then the cost block, either one row per client of `nf`
    values (Holmberg instances) or one row per facility of `m` values, a row
    taking exactly one continuation line when its first line is short. */
module InstanceFile {
  import opened Common
  import opened Entities

  // ---------------------------------------------------------------------
  // The instance type: `import_file_path.split("/")[1]`

  /** No piece holds the separator. */
  predicate SepFree(parts: seq<string>, sep: char)
  {
    forall i :: 0 <= i < |parts| ==> sep !in parts[i]
  }

  /** Python's `str.split(sep)`: the pieces between separators, empty
      pieces included. */
  function Split(s: string, sep: char): (parts: seq<string>)
    ensures |parts| >= 1 && SepFree(parts, sep)
    decreases |s|
  {
    if sep !in s then [s]
    else
      var i := IndexOf(s, sep);
      var rest := Split(s[i + 1..], sep);
      assert SepFree([s[..i]] + rest, sep) by {
        forall j | 0 <= j < |rest| + 1
          ensures sep !in ([s[..i]] + rest)[j]
        {
          if j > 0 {
            assert ([s[..i]] + rest)[j] == rest[j - 1];
          }
        }
      }
      [s[..i]] + rest
  }

  /** Python's `sep.join(parts)`. */
  function Join(parts: seq<string>, sep: char): string
    requires |parts| >= 1
  {
    if |parts| == 1 then parts[0] else parts[0] + [sep] + Join(parts[1..], sep)
  }

  /** Splitting a joined path gives back its pieces. */
  lemma {:induction false} SplitJoin(parts: seq<string>, sep: char)
    requires |parts| >= 1 && SepFree(parts, sep)
    ensures Split(Join(parts, sep), sep) == parts
    decreases |parts|
  {
    if |parts| > 1 {
      var head, rest := parts[0], Join(parts[1..], sep);
      var s := head + [sep] + rest;
      assert s[..|head|] == head && s[|head|] == sep && s[|head| + 1..] == rest;
      IndexOfFirst(s, sep, |head|);
      assert SepFree(parts[1..], sep) by {
        forall j | 0 <= j < |parts| - 1
          ensures sep !in parts[1..][j]
        {
          assert parts[1..][j] == parts[j + 1];
        }
      }
      SplitJoin(parts[1..], sep);
    }
  }

  /** Joining the pieces of a path gives back the path. */
  lemma {:induction false} JoinSplit(s: string, sep: char)
    ensures Join(Split(s, sep), sep) == s
    decreases |s|
  {
    if sep in s {
      var i := IndexOf(s, sep);
      var rest := Split(s[i + 1..], sep);
      JoinSplit(s[i + 1..], sep);
      JoinCons(s[..i], rest, sep);
      assert s == s[..i] + [sep] + s[i + 1..];
    }
  }

  lemma JoinCons(head: string, rest: seq<string>, sep: char)
    requires |rest| >= 1
    ensures Join([head] + rest, sep) == head + [sep] + Join(rest, sep)
  {
    assert ([head] + rest)[1..] == rest;
  }

  /** The second `/`-separated component of the path; None where the source
      raises IndexError (no `/` in the path). */
  function InstanceType(path: string): (r: Option<string>)
    ensures r.Some? <==> '/' in path
    ensures r.Some? ==> '/' !in r.value
  {
    var parts := Split(path, '/');
    if |parts| >= 2 then Some(parts[1]) else None
  }

  /** For a path `root/kind/...` with `/`-free pieces, the instance type is `kind`. */
  lemma InstanceTypeOf(root: string, kind: string, rest: seq<string>)
    requires '/' !in root && '/' !in kind && SepFree(rest, '/')
    ensures InstanceType(Join([root, kind] + rest, '/')) == Some(kind)
  {
    var parts := [root, kind] + rest;
    assert SepFree(parts, '/') by {
      forall i | 0 <= i < |parts|
        ensures '/' !in parts[i]
      {
        if i >= 2 {
          assert parts[i] == rest[i - 2];
        }
      }
    }
    SplitJoin(parts, '/');
    assert parts[1] == kind;
  }

  /** The instance type that selects the per-client cost layout. */
  const Holmberg: string := "Holmberg_Instances"

  // ---------------------------------------------------------------------
  // Lines

  /** `readline` on line `i`: past the end of the file it yields an empty line. */
  function Line(lines: seq<seq<real>>, i: nat): seq<real>
  {
    if i < |lines| then lines[i] else []
  }

  /** The tokens of lines a .. b-1, in order. */
  function Flatten(lines: seq<seq<real>>, a: nat, b: nat): seq<real>
    requires a <= b
    decreases b - a
  {
    if a == b then [] else Flatten(lines, a, b - 1) + Line(lines, b - 1)
  }

  /** Tokens of lines a .. c-1 are those of a .. b-1 followed by those of b .. c-1. */
  lemma {:induction false} FlattenSplit(lines: seq<seq<real>>, a: nat, b: nat, c: nat)
    requires a <= b <= c
    ensures Flatten(lines, a, c) == Flatten(lines, a, b) + Flatten(lines, b, c)
    decreases c - b
  {
    if b < c {
      FlattenSplit(lines, a, b, c - 1);
    }
  }

  // ---------------------------------------------------------------------
  // Block 1: header

  /** A token `int()` accepts as a count. */
  predicate IsCount(x: real)
  {
    x >= 0.0 && x == x.Floor as real
  }

  /** The header line holds exactly two counts. */
  predicate HeaderOk(lines: seq<seq<real>>)
  {
    |Line(lines, 0)| == 2 && IsCount(Line(lines, 0)[0]) && IsCount(Line(lines, 0)[1])
  }

  function FacilityCount(lines: seq<seq<real>>): nat
    requires HeaderOk(lines)
  {
    lines[0][0].Floor
  }

  function ClientCount(lines: seq<seq<real>>): nat
    requires HeaderOk(lines)
  {
    lines[0][1].Floor
  }

  // ---------------------------------------------------------------------
  // Block 2: facilities

  /** Each of the `nf` facility lines holds exactly capacity and opening cost. */
  predicate FacilityLinesOk(lines: seq<seq<real>>, nf: nat)
  {
    forall i :: 1 <= i <= nf ==> |Line(lines, i)| == 2
  }

  /** Facility `i` (1-based) is read from line `i`. */
  function ParsedFacilities(lines: seq<seq<real>>, nf: nat): (fs: seq<Facility>)
    requires FacilityLinesOk(lines, nf)
    ensures |fs| == nf
    ensures forall f :: 0 <= f < nf ==>
              fs[f] == Facility(f + 1, Line(lines, f + 1)[0], Line(lines, f + 1)[1])
  {
    seq(nf, f requires 0 <= f < nf => Facility(f + 1, Line(lines, f + 1)[0], Line(lines, f + 1)[1]))
  }

  // ---------------------------------------------------------------------
  // Block 3: demands

  /** The line after the demand block starting at line `a`, searching from
      line `e` on: the first `e` where lines a .. e-1 hold at least `m`
      tokens. None when the file ends first: `readline` then yields empty
      lines forever and the source loops without end. */
  function DemandEnd(lines: seq<seq<real>>, a: nat, e: nat, m: nat): (r: Option<nat>)
    requires a <= e
    ensures r.Some? ==> e <= r.value && |Flatten(lines, a, r.value)| >= m
    ensures r.Some? ==> forall e' :: e <= e' < r.value ==> |Flatten(lines, a, e')| < m
    ensures r.None? ==> forall e' :: e <= e' <= |lines| ==> |Flatten(lines, a, e')| < m
    decreases if e < |lines| then |lines| - e else 0
  {
    if |Flatten(lines, a, e)| >= m then Some(e)
    else if e >= |lines| then None
    else DemandEnd(lines, a, e + 1, m)
  }

  /** Past the end of the file no more demands arrive, so a missing end is
      an endless loop: no line end at all reaches `m` demands. */
  lemma {:induction false} FlattenPastEnd(lines: seq<seq<real>>, a: nat, e: nat)
    requires a <= e && |lines| <= e
    ensures Flatten(lines, a, e) == Flatten(lines, a, if a <= |lines| then |lines| else a)
    decreases e
  {
    var stop := if a <= |lines| then |lines| else a;
    if e > stop {
      FlattenPastEnd(lines, a, e - 1);
    }
  }

  /** The demands read by the block that starts at line `a`. */
  function Demands(lines: seq<seq<real>>, a: nat, m: nat): seq<real>
    requires DemandEnd(lines, a, a, m).Some?
  {
    Flatten(lines, a, DemandEnd(lines, a, a, m).value)
  }

  /** Client `c` (0-based) has id c+1 and the c-th demand read. */
  function ClientsOf(demands: seq<real>): (cs: seq<Client>)
    ensures |cs| == |demands|
    ensures forall c :: 0 <= c < |cs| ==> cs[c] == Client(c + 1, demands[c])
  {
    seq(|demands|, c requires 0 <= c < |demands| => Client(c + 1, demands[c]))
  }

  // ---------------------------------------------------------------------
  // Block 4: costs

  /** One cost row of `width` values starting at line `pos`: the line itself,
      extended by the next line only when it is shorter than `width`. Returns
      the row and the line after it. */
  function ReadRow(lines: seq<seq<real>>, pos: nat, width: nat): (r: (seq<real>, nat))
    ensures r.1 == pos + 1 || r.1 == pos + 2
    ensures r.1 == pos + 2 <==> |Line(lines, pos)| < width
    ensures r.0 == Flatten(lines, pos, r.1)
  {
    var first := Line(lines, pos);
    assert Flatten(lines, pos, pos + 1) == first by {
      assert Flatten(lines, pos, pos) == [];
    }
    if |first| < width then
      assert Flatten(lines, pos, pos + 2) == first + Line(lines, pos + 1);
      (first + Line(lines, pos + 1), pos + 2)
    else (first, pos + 1)
  }

  /** `count` rows read one after the other from line `pos`; returns the rows
      and the line after the last. */
  function ReadRows(lines: seq<seq<real>>, pos: nat, count: nat, width: nat): (r: (seq<seq<real>>, nat))
    ensures |r.0| == count && pos + count <= r.1 <= pos + 2 * count
  {
    if count == 0 then ([], pos)
    else
      var (rows, next) := ReadRows(lines, pos, count - 1, width);
      var (row, after) := ReadRow(lines, next, width);
      (rows + [row], after)
  }

  /** Every row came out at exactly `width` values (otherwise the source's
      DataFrame construction raises ValueError). */
  predicate RowsOk(rows: seq<seq<real>>, width: nat)
  {
    forall i :: 0 <= i < |rows| ==> |rows[i]| == width
  }

  /** pandas' `transpose` of a matrix whose rows hold `width` values. */
  function Transpose(rows: seq<seq<real>>, width: nat): (t: seq<seq<real>>)
    requires RowsOk(rows, width)
    ensures |t| == width && RowsOk(t, |rows|)
  {
    seq(width, c requires 0 <= c < width => seq(|rows|, f requires 0 <= f < |rows| => rows[f][c]))
  }

  /** Transposing twice gives the matrix back. */
  lemma TransposeTwice(rows: seq<seq<real>>, width: nat)
    requires RowsOk(rows, width)
    ensures Transpose(Transpose(rows, width), |rows|) == rows
  {
    var t := Transpose(Transpose(rows, width), |rows|);
    forall f | 0 <= f < |rows|
      ensures t[f] == rows[f]
    {
      assert |t[f]| == width;
    }
  }

  // ---------------------------------------------------------------------
  // The whole file

  /** The line where the cost block starts. */
  function CostStart(lines: seq<seq<real>>): nat
    requires HeaderOk(lines)
    requires DemandEnd(lines, FacilityCount(lines) + 1, FacilityCount(lines) + 1, ClientCount(lines)).Some?
  {
    DemandEnd(lines, FacilityCount(lines) + 1, FacilityCount(lines) + 1, ClientCount(lines)).value
  }

  /** The raw cost rows: per client (`holmberg`) or per facility. */
  function CostRows(lines: seq<seq<real>>, holmberg: bool): seq<seq<real>>
    requires HeaderOk(lines)
    requires DemandEnd(lines, FacilityCount(lines) + 1, FacilityCount(lines) + 1, ClientCount(lines)).Some?
  {
    if holmberg then ReadRows(lines, CostStart(lines), ClientCount(lines), FacilityCount(lines)).0
    else ReadRows(lines, CostStart(lines), FacilityCount(lines), ClientCount(lines)).0
  }

  /** A file the source reads to the end without raising or looping forever,
      with at least two facilities (a single one gives NaN marginal costs)
      and at least one client (no client gives no cost row, and
      `calculate_marginal_cost` then concatenates nothing and raises). */
  predicate WellFormed(lines: seq<seq<real>>, holmberg: bool)
  {
    && HeaderOk(lines)
    && FacilityCount(lines) >= 2 && ClientCount(lines) >= 1
    && FacilityLinesOk(lines, FacilityCount(lines))
    && DemandEnd(lines, FacilityCount(lines) + 1, FacilityCount(lines) + 1, ClientCount(lines)).Some?
    && RowsOk(CostRows(lines, holmberg), if holmberg then FacilityCount(lines) else ClientCount(lines))
  }

  /** The cost matrix, a row per client and a column per facility. */
  function ParsedCost(lines: seq<seq<real>>, holmberg: bool): (cost: seq<seq<real>>)
    requires WellFormed(lines, holmberg)
    ensures |cost| == ClientCount(lines) && RowsOk(cost, FacilityCount(lines))
  {
    if holmberg then CostRows(lines, holmberg)
    else Transpose(CostRows(lines, holmberg), ClientCount(lines))
  }

  /** The data a well-formed file yields: facilities, clients (at least as
      many as the header announces, one cost row each), and the cost matrix. */
  function ParsedInstance(lines: seq<seq<real>>, holmberg: bool): (d: Instance)
    requires WellFormed(lines, holmberg)
    ensures d.Valid()
    ensures |d.facilities| == FacilityCount(lines) && |d.cost| == ClientCount(lines) <= |d.clients|
  {
    var facilities := ParsedFacilities(lines, FacilityCount(lines));
    var clients := ClientsOf(Demands(lines, FacilityCount(lines) + 1, ClientCount(lines)));
    var cost := ParsedCost(lines, holmberg);
    assert |clients| >= ClientCount(lines);
    Instance(facilities, clients, cost)
  }

  /** A well-formed file yields data a net can be built over: facility and
      client ids run from 1, every client that has a cost row exists, and
      every row has a cost per facility. */
  lemma ParsedInstanceValid(lines: seq<seq<real>>, holmberg: bool)
    requires WellFormed(lines, holmberg)
    ensures ParsedInstance(lines, holmberg).Valid()
    ensures |ParsedInstance(lines, holmberg).facilities| == FacilityCount(lines)
    ensures |ParsedInstance(lines, holmberg).cost| == ClientCount(lines) <= |ParsedInstance(lines, holmberg).clients|
    ensures ClientCount(lines) >= 1 && TwoColumns(ParsedInstance(lines, holmberg).cost)
  {
    var d := ParsedInstance(lines, holmberg);
    assert |d.clients| >= ClientCount(lines);
  }

  /** In the per-facility layout, entry [c][f] is the c-th value of facility
      `f`'s row. */
  lemma PerFacilityEntry(lines: seq<seq<real>>, c: nat, f: nat)
    requires WellFormed(lines, false)
    requires c < ClientCount(lines) && f < FacilityCount(lines)
    ensures ParsedCost(lines, false)[c][f] == CostRows(lines, false)[f][c]
  {
  }

  // ---------------------------------------------------------------------
  // Marginal costs (calculate_marginal_cost)

  /** The minimum of a row over every column but `f`. */
  function MinExcept(row: seq<real>, f: nat): (m: real)
    requires |row| >= 2 && f < |row|
    ensures exists j :: 0 <= j < |row| && j != f && m == row[j]
    ensures forall j :: 0 <= j < |row| && j != f ==> m <= row[j]
  {
    var rest := row[..f] + row[f + 1..];
    var k := FirstMin(rest);
    var j := if k < f then k else k + 1;
    assert rest[k] == row[j];
    assert forall i :: 0 <= i < |row| && i != f ==> row[i] == rest[if i < f then i else i - 1];
    rest[k]
  }

  /** `marginal[c][f] = min(cost[c][f'] for f' != f) - cost[c][f]`, row by row. */
  function MarginalRow(row: seq<real>): (r: seq<real>)
    requires |row| >= 2
    ensures |r| == |row|
  {
    seq(|row|, f requires 0 <= f < |row| => MinExcept(row, f) - row[f])
  }

  /** Every row has another column to compare each cell with. */
  predicate TwoColumns(cost: seq<seq<real>>)
  {
    forall c :: 0 <= c < |cost| ==> |cost[c]| >= 2
  }

  /** Every row of the cost matrix, mapped through `MarginalRow`, in the
      same order. */
  function MarginalMatrix(cost: seq<seq<real>>): (r: seq<seq<real>>)
    requires TwoColumns(cost)
    ensures |r| == |cost| && forall c :: 0 <= c < |cost| ==> |r[c]| == |cost[c]|
  {
    seq(|cost|, c requires 0 <= c < |cost| => MarginalRow(cost[c]))
  }

  /** A marginal cost is non-negative exactly when its facility is among the
      cheapest of the row, and negative otherwise. */
  lemma MarginalSign(row: seq<real>, f: nat)
    requires |row| >= 2 && f < |row|
    ensures MarginalRow(row)[f] >= 0.0 <==> forall j :: 0 <= j < |row| ==> row[f] <= row[j]
    ensures MarginalRow(row)[f] < 0.0 <==> exists j :: 0 <= j < |row| && row[j] < row[f]
  {
    var m := MinExcept(row, f);
    if m >= row[f] {
      forall j | 0 <= j < |row|
        ensures row[f] <= row[j]
      {
        if j != f {
          assert m <= row[j];
        }
      }
    }
  }

  /** A facility strictly cheaper than every other gets as marginal cost the
      gap to the second best, which is positive. */
  lemma MarginalUniqueMin(row: seq<real>, f: nat)
    requires |row| >= 2 && f < |row|
    requires forall j :: 0 <= j < |row| && j != f ==> row[f] < row[j]
    ensures MarginalRow(row)[f] > 0.0
  {
    var m := MinExcept(row, f);
    var j :| 0 <= j < |row| && j != f && m == row[j];
  }
}
