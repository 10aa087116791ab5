/** PageRank over the airport/route graph (Lab4's PageRank.py).

    The script keeps its graph in two module globals, `airportList` and
    `airportHash`; here they are the fields of one `Network` object.  An
    `Airport` is a class because `readRoutes` updates its routes, route hash
    and out-weight in place; an `Edge` never changes after construction and
    is a value.  Input files are sequences of already-read lines. */
module PageRank {
  import opened Wrappers
  import opened Text
  import opened RealSums
  import opened Matrices

  /** Teleport probability (`alpha = 0.15`). */
  const Alpha: real := 0.15

  /** Convergence threshold on the Euclidean distance of two iterates. */
  const Threshold: real := 0.000001

  // ---------------------------------------------------------------------
  // Records as read from the two input files

  datatype AirportRecord = AirportRecord(code: string, name: string)

  /** One line of the airports file: accepted when it has at least five
      comma-separated fields and the fifth has exactly five characters
      (a quoted three-letter code); the code is that field without its
      first and last character, the name is fields 2 and 4 stripped the
      same way and joined by ", ". */
  function ParseAirport(line: string): (r: Option<AirportRecord>)
    ensures r.Some? ==> |r.value.code| == 3
  {
    var temp := Split(line, ',');
    if |temp| < 5 || |temp[4]| != 5 then None
    else Some(AirportRecord(Strip(temp[4]), Strip(temp[1]) + ", " + Strip(temp[3])))
  }

  /** The records `readAirports` accepts, in file order. */
  function ParseAirports(lines: seq<string>): (r: seq<AirportRecord>)
    ensures |r| <= |lines|
  {
    if |lines| == 0 then []
    else
      var prefix := ParseAirports(lines[..|lines| - 1]);
      match ParseAirport(lines[|lines| - 1])
      case Some(rec) => prefix + [rec]
      case None => prefix
  }

  /** The (source, target) codes of a route line: fields 3 and 5, each of
      exactly three characters. */
  function ParseRoute(line: string): (r: Option<(string, string)>)
    ensures r.Some? ==> |r.value.0| == 3 && |r.value.1| == 3
  {
    var temp := Split(line, ',');
    if |temp| < 5 || |temp[2]| != 3 || |temp[4]| != 3 then None
    else Some((temp[2], temp[4]))
  }

  /** A line built from comma-free fields is accepted exactly when it has
      five fields or more and the fifth is five characters long, and then
      yields that field's code and the name from fields 2 and 4. */
  lemma ParseAirportOfFields(fields: seq<string>)
    requires |fields| >= 1
    requires forall k :: 0 <= k < |fields| ==> ',' !in fields[k]
    ensures ParseAirport(Join(fields, ",")) ==
      if |fields| >= 5 && |fields[4]| == 5
      then Some(AirportRecord(Strip(fields[4]), Strip(fields[1]) + ", " + Strip(fields[3])))
      else None
  {
    SplitJoin(fields, ',');
  }

  /** Likewise for route lines: fields 3 and 5 are the two codes. */
  lemma ParseRouteOfFields(fields: seq<string>)
    requires |fields| >= 1
    requires forall k :: 0 <= k < |fields| ==> ',' !in fields[k]
    ensures ParseRoute(Join(fields, ",")) ==
      if |fields| >= 5 && |fields[2]| == 3 && |fields[4]| == 3
      then Some((fields[2], fields[4]))
      else None
  {
    SplitJoin(fields, ',');
  }

  // ---------------------------------------------------------------------
  // Route ingestion as a function of the route table: for each airport
  // index, the codes of its route targets in insertion order.

  type RouteTable = seq<seq<string>>

  /** The rows of n airports without routes. */
  function NoRoutes(n: nat): RouteTable
  {
    seq(n, k => [])
  }

  predicate IndexInto(index: map<string, int>, table: RouteTable)
  {
    forall c :: c in index ==> 0 <= index[c] < |table|
  }

  /** One line of the routes file against the table: accepted when it
      parses, both codes are known, and the source has no route to the
      target yet; then the target is appended to the source's row. */
  function AddRoute(table: RouteTable, index: map<string, int>, line: string): (RouteTable, bool)
    requires IndexInto(index, table)
  {
    match ParseRoute(line)
    case None => (table, false)
    case Some((s, t)) =>
      if s in index && t in index && t !in table[index[s]]
      then (table[index[s] := table[index[s]] + [t]], true)
      else (table, false)
  }

  datatype RouteLoad = RouteLoad(table: RouteTable, accepted: nat)

  /** The table after a whole file, and how many lines were accepted. */
  function LoadRoutes(table: RouteTable, index: map<string, int>, lines: seq<string>): (r: RouteLoad)
    requires IndexInto(index, table)
    ensures |r.table| == |table|
  {
    if |lines| == 0 then RouteLoad(table, 0)
    else
      var prev := LoadRoutes(table, index, lines[..|lines| - 1]);
      var (t, ok) := AddRoute(prev.table, index, lines[|lines| - 1]);
      RouteLoad(t, if ok then prev.accepted + 1 else prev.accepted)
  }

  predicate DistinctCodes(row: seq<string>)
  {
    forall p, q :: 0 <= p < q < |row| ==> row[p] != row[q]
  }

  /** Route loading keeps every row free of repeated targets, only appends
      to rows, and every appended target is a known code. */
  lemma {:induction false} LoadRoutesInvariant(table: RouteTable, index: map<string, int>, lines: seq<string>)
    requires IndexInto(index, table)
    requires forall i :: 0 <= i < |table| ==> DistinctCodes(table[i])
    ensures var r := LoadRoutes(table, index, lines).table;
      && (forall i :: 0 <= i < |r| ==> DistinctCodes(r[i]))
      && (forall i :: 0 <= i < |r| ==> |table[i]| <= |r[i]| && r[i][..|table[i]|] == table[i])
      && (forall i, p :: 0 <= i < |r| && |table[i]| <= p < |r[i]| ==> r[i][p] in index)
  {
    if |lines| > 0 {
      var init := lines[..|lines| - 1];
      LoadRoutesInvariant(table, index, init);
      var prev := LoadRoutes(table, index, init).table;
      var r := LoadRoutes(table, index, lines).table;
      match ParseRoute(lines[|lines| - 1])
      case None =>
      case Some((s, t)) =>
        if s in index && t in index && t !in prev[index[s]] {
          var i0 := index[s];
          assert r == prev[i0 := prev[i0] + [t]];
          forall i | 0 <= i < |r|
            ensures DistinctCodes(r[i])
            ensures |table[i]| <= |r[i]| && r[i][..|table[i]|] == table[i]
          {
            if i == i0 {
              assert r[i][..|prev[i]|] == prev[i];
            }
          }
        }
    }
  }

  /** A route line read a second time changes nothing: the table and the
      accepted count are those after the first copy, so the line is
      accepted exactly once when the first copy is accepted. */
  lemma RepeatedRouteAcceptedOnce(table: RouteTable, index: map<string, int>, line: string)
    requires IndexInto(index, table)
    ensures LoadRoutes(table, index, [line, line]) == LoadRoutes(table, index, [line])
  {
    assert [line, line][..1] == [line];
    assert [line][..0] == [];
    var (t1, ok1) := AddRoute(table, index, line);
    assert LoadRoutes(table, index, [line]) == RouteLoad(t1, if ok1 then 1 else 0);
    if ok1 {
      var (s, t) := ParseRoute(line).value;
      assert t1[index[s]] == table[index[s]] + [t];
      assert t in t1[index[s]];
    }
    assert AddRoute(t1, index, line) == (t1, false);
  }

  // ---------------------------------------------------------------------
  // The transition matrix, as a function of the adjacency: for each
  // airport index i, the matrix indices of its route targets.

  /** Every target index is in range and no column lists a target twice. */
  predicate WellFormed(n: nat, adj: seq<seq<int>>)
  {
    && |adj| == n
    && (forall i, p :: 0 <= i < n && 0 <= p < |adj[i]| ==> 0 <= adj[i][p] < n)
    && (forall i, p, q :: 0 <= i < n && 0 <= p < q < |adj[i]| ==> adj[i][p] != adj[i][q])
  }

  /** P[j][i]: a column without routes is 1/n everywhere; otherwise
      1/outweight at each route target and 0 elsewhere. */
  function Transition(n: nat, adj: seq<seq<int>>, j: int, i: int): real
    requires 0 < n && 0 <= i < |adj|
  {
    if |adj[i]| == 0 then 1.0 / n as real
    else if j in adj[i] then 1.0 / |adj[i]| as real
    else 0.0
  }

  /** Pa[j][i] = alpha/n + (1 - alpha) * P[j][i]. */
  function DampedMatrix(n: nat, adj: seq<seq<int>>): (M: seq<seq<real>>)
    requires |adj| == n
    ensures |M| == n && Square(M)
  {
    seq(n, j requires 0 <= j < n =>
      seq(n, i requires 0 <= i < n => Alpha / n as real + (1.0 - Alpha) * Transition(n, adj, j, i)))
  }

  function TransitionColumn(n: nat, adj: seq<seq<int>>, i: int): int -> real
    requires 0 < n && 0 <= i < |adj|
  {
    j => Transition(n, adj, j, i)
  }

  /** Every column of P sums to 1: the dangling ones through the 1/n fill,
      the others because their targets are distinct and in range. */
  lemma TransitionColumnSum(n: nat, adj: seq<seq<int>>, i: int)
    requires 0 < n && WellFormed(n, adj) && 0 <= i < n
    ensures Sum(n, TransitionColumn(n, adj, i)) == 1.0
  {
    var col := TransitionColumn(n, adj, i);
    if |adj[i]| == 0 {
      SumConst(n, 1.0 / n as real, col);
    } else {
      var w := 1.0 / |adj[i]| as real;
      SumIndicator(n, adj[i], w);
      SumExt(n, col, Indicator(adj[i], w));
    }
  }

  /** Pa is column-stochastic. */
  lemma DampedColumnStochastic(n: nat, adj: seq<seq<int>>)
    requires WellFormed(n, adj)
    ensures ColumnStochastic(DampedMatrix(n, adj))
  {
    var M := DampedMatrix(n, adj);
    forall i | 0 <= i < n ensures Sum(n, Column(M, i)) == 1.0 {
      var col := TransitionColumn(n, adj, i);
      TransitionColumnSum(n, adj, i);
      var scaled := j => (1.0 - Alpha) * col(j);
      SumScale(n, 1.0 - Alpha, col, scaled);
      SumConst(n, Alpha / n as real, j => Alpha / n as real);
      SumAdd(n, j => Alpha / n as real, scaled, Column(M, i));
    }
  }

  /** Pa for a well-formed adjacency, known to be column-stochastic. */
  function StochasticMatrix(n: nat, adj: seq<seq<int>>): (M: seq<seq<real>>)
    requires WellFormed(n, adj)
    ensures M == DampedMatrix(n, adj) && ColumnStochastic(M)
  {
    DampedColumnStochastic(n, adj);
    DampedMatrix(n, adj)
  }

  /** Every entry of Pa is at least alpha/n. */
  lemma DampedLowerBound(n: nat, adj: seq<seq<int>>)
    requires WellFormed(n, adj)
    ensures forall j, i :: 0 <= j < n && 0 <= i < n ==> Alpha / n as real <= DampedMatrix(n, adj)[j][i]
  {
  }

  // ---------------------------------------------------------------------
  // Power iteration

  /** `np.ones(n) / n`. */
  function Uniform(n: nat): (x: seq<real>)
    ensures |x| == n
  {
    seq(n, k requires 0 <= k < n => 1.0 / n as real)
  }

  lemma UniformSum(n: nat)
    requires 0 < n
    ensures VecSum(Uniform(n)) == 1.0
  {
    SumConst(n, 1.0 / n as real, Vec(Uniform(n)));
  }

  /** One pass of computePageRanks: `x_new = Pa . x; x_new /= sum(x_new)`. */
  function Step(M: seq<seq<real>>, x: seq<real>): (r: seq<real>)
    requires ColumnStochastic(M) && |x| == |M|
    requires |x| == 0 || VecSum(x) == 1.0
    ensures |r| == |M|
    ensures |r| == 0 || VecSum(r) == 1.0
  {
    MatVecKeepsSum(M, x);
    var y := MatVec(M, x);
    if |y| > 0 then NormalizeUnitSum(y); Normalize(y) else Normalize(y)
  }

  /** The k-th iterate, starting from the uniform vector. */
  function Iterate(M: seq<seq<real>>, k: nat): (x: seq<real>)
    requires ColumnStochastic(M)
    ensures |x| == |M|
    ensures |x| == 0 || VecSum(x) == 1.0
  {
    if k == 0 then
      if |M| > 0 then UniformSum(|M|); Uniform(|M|) else Uniform(|M|)
    else Step(M, Iterate(M, k - 1))
  }

  /** The convergence test `norm(x_new - x) < threshold`, squared. */
  predicate Close(a: seq<real>, b: seq<real>)
  {
    SquaredDistance(a, b) < Threshold * Threshold
  }

  /** Pass k is the one that meets the threshold. */
  predicate ConvergesAt(M: seq<seq<real>>, k: nat)
    requires ColumnStochastic(M)
  {
    Close(Iterate(M, k + 1), Iterate(M, k))
  }

  /** Sets every entry of column i of P to v (getProbabilityMatrix's
      column for an airport without routes). */
  method FillColumn(P: array2<real>, i: int, v: real)
    requires 0 <= i < P.Length1
    modifies P
    ensures forall j, i' :: 0 <= j < P.Length0 && 0 <= i' < P.Length1 ==>
      P[j, i'] == if i' == i then v else old(P[j, i'])
  {
    for j := 0 to P.Length0
      invariant forall j', i' :: 0 <= j' < P.Length0 && 0 <= i' < P.Length1 ==>
        P[j', i'] == if i' == i && j' < j then v else old(P[j', i'])
    {
      P[j, i] := v;
    }
  }

  /** What getProbabilityMatrix reads of an airport: the codes of its
      routes' origins are in hash, targets are their indices and outweight
      counts them. */
  ghost predicate RouteColumn(a: Airport, hash: map<string, Airport>, targets: seq<int>)
    reads a
  {
    && (forall m :: 0 <= m < |a.routes| ==> a.routes[m].origin.code in hash)
    && targets == TargetIndices(hash, a.routes)
    && a.outweight == |targets|
  }

  /** The loop of getProbabilityMatrix filling P in place: column i holds
      1/n everywhere for an airport without routes, and 1/outweight at the
      index of each route's origin otherwise. */
  method TransitionArray(list: seq<Airport>, hash: map<string, Airport>, ghost adj: seq<seq<int>>)
    returns (P: array2<real>)
    requires WellFormed(|list|, adj)
    requires forall i :: 0 <= i < |list| ==> RouteColumn(list[i], hash, adj[i])
    ensures fresh(P) && P.Length0 == P.Length1 == |list|
    ensures forall j, i :: 0 <= j < |list| && 0 <= i < |list| ==> P[j, i] == Transition(|list|, adj, j, i)
  {
    var n := |list|;
    P := new real[n, n]((j, i) => 0.0);
    for i := 0 to n
      invariant forall j, i' :: 0 <= j < n && 0 <= i' < n ==>
        P[j, i'] == if i' < i then Transition(n, adj, j, i') else 0.0
    {
      var airport := list[i];
      assert RouteColumn(airport, hash, adj[i]);
      if airport.outweight == 0 {
        FillColumn(P, i, 1.0 / n as real);
      } else {
        FillRouteColumn(P, i, airport, hash, adj[i]);
      }
    }
  }

  /** The inner loop of getProbabilityMatrix for an airport with routes:
      P[hash[e.origin.code].pageIndex][i] becomes 1/outweight for each
      route e of the airport. */
  method FillRouteColumn(P: array2<real>, i: int, airport: Airport, hash: map<string, Airport>, ghost targets: seq<int>)
    requires 0 <= i < P.Length1 && RouteColumn(airport, hash, targets)
    requires forall m :: 0 <= m < |targets| ==> 0 <= targets[m] < P.Length0
    modifies P
    ensures forall j, i' :: 0 <= j < P.Length0 && 0 <= i' < P.Length1 ==>
      P[j, i'] == if i' == i && j in targets then 1.0 / |targets| as real else old(P[j, i'])
  {
    for m := 0 to |airport.routes|
      invariant forall j, i' :: 0 <= j < P.Length0 && 0 <= i' < P.Length1 ==>
        P[j, i'] == if i' == i && j in targets[..m] then 1.0 / |targets| as real else old(P[j, i'])
    {
      var j := hash[airport.routes[m].origin.code].pageIndex;
      assert j == targets[m];
      assert targets[..m + 1] == targets[..m] + [j];
      P[j, i] := 1.0 / airport.outweight as real;
    }
    assert targets[..|airport.routes|] == targets;
  }

  /** One pass of the loop below computes the next iterate. */
  lemma NextIterate(M: seq<seq<real>>, k: nat)
    requires ColumnStochastic(M)
    ensures var y := MatVec(M, Iterate(M, k));
      (|y| == 0 || VecSum(y) != 0.0) && Normalize(y) == Iterate(M, k + 1)
    ensures ConvergesAt(M, k) == Close(Iterate(M, k + 1), Iterate(M, k))
  {
    MatVecKeepsSum(M, Iterate(M, k));
  }

  /** The power-iteration loop of computePageRanks, with at most maxPasses
      passes: x is the iterate reached, iterations the number of passes
      that missed the threshold before the loop stopped. */
  method PowerIteration(M: seq<seq<real>>, maxPasses: nat) returns (converged: bool, iterations: nat, x: seq<real>)
    requires ColumnStochastic(M)
    ensures iterations <= maxPasses
    ensures x == Iterate(M, iterations)
    ensures forall k :: 0 <= k < iterations ==> !ConvergesAt(M, k)
    ensures converged ==> ConvergesAt(M, iterations)
    ensures !converged ==> iterations == maxPasses
  {
    x := Uniform(|M|);
    iterations, converged := 0, false;
    while iterations < maxPasses
      invariant iterations <= maxPasses
      invariant x == Iterate(M, iterations)
      invariant forall k :: 0 <= k < iterations ==> !ConvergesAt(M, k)
      decreases maxPasses - iterations
    {
      var xNew := MatVec(M, x);
      NextIterate(M, iterations);
      xNew := Normalize(xNew);
      converged := Close(xNew, x);
      if converged {
        return;
      }
      x := xNew;
      iterations := iterations + 1;
    }
  }

  /** With Pa's entries at least alpha/n, every iterate is a probability
      vector with entries at least alpha/n after the first pass (and 1/n
      before it). */
  lemma {:induction false} IteratePositive(n: nat, adj: seq<seq<int>>, k: nat)
    requires 0 < n && WellFormed(n, adj)
    ensures var x := Iterate(StochasticMatrix(n, adj), k);
      VecSum(x) == 1.0 && forall j :: 0 <= j < n ==> 0.0 < x[j]
  {
    var M := StochasticMatrix(n, adj);
    if k > 0 {
      var prev := Iterate(M, k - 1);
      IteratePositive(n, adj, k - 1);
      DampedLowerBound(n, adj);
      MatVecLowerBound(M, prev, Alpha / n as real);
      MatVecKeepsSum(M, prev);
      NormalizeUnitSum(MatVec(M, prev));
    }
  }

  // ---------------------------------------------------------------------
  // The mutable graph

  datatype Edge = Edge(origin: Airport, weight: int)

  /** The codes of the route targets, in insertion order. */
  ghost function TargetCodes(edges: seq<Edge>): (r: seq<string>)
    ensures |r| == |edges| && forall m {:trigger r[m]} :: 0 <= m < |edges| ==> r[m] == edges[m].origin.code
  {
    if |edges| == 0 then []
    else
      TargetCodes(edges[..|edges| - 1]) + [edges[|edges| - 1].origin.code]
  }

  /** `hash[edge.origin.code].pageIndex` for each of the edges: the rows
      getProbabilityMatrix writes to for an airport with these routes. */
  ghost function TargetIndices(hash: map<string, Airport>, edges: seq<Edge>): (r: seq<int>)
    requires forall m :: 0 <= m < |edges| ==> edges[m].origin.code in hash
    ensures |r| == |edges|
    ensures forall m {:trigger r[m]} :: 0 <= m < |edges| ==> r[m] == hash[edges[m].origin.code].pageIndex
  {
    if |edges| == 0 then []
    else TargetIndices(hash, edges[..|edges| - 1]) + [hash[edges[|edges| - 1].origin.code].pageIndex]
  }

  /** The airport carries the record's code and name. */
  ghost predicate Holds(a: Airport, r: AirportRecord)
  {
    a.code == r.code && a.name == r.name
  }

  /** hash maps c to the last listed airport whose code is c. */
  ghost predicate HashEntry(list: seq<Airport>, hash: map<string, Airport>, c: string)
    requires c in hash
  {
    var a := hash[c];
    && a in list
    && a.code == c
    && forall k :: 0 <= k < |list| && a.pageIndex < k ==> list[k].code != c
  }

  /** Routes go to listed airports with weight 1, there are outweight of
      them, and routeHash gives the position of the route to each target
      code (so no two routes share a target). */
  ghost predicate RoutesOk(list: seq<Airport>, routes: seq<Edge>, routeHash: map<string, int>, outweight: int)
  {
    && outweight == |routes|
    && (forall m :: 0 <= m < |routes| ==> routes[m].origin in list && routes[m].weight == 1)
    && (forall m :: 0 <= m < |routes| ==>
          routes[m].origin.code in routeHash && routeHash[routes[m].origin.code] == m)
    && (forall c :: c in routeHash ==>
          0 <= routeHash[c] < |routes| && routes[routeHash[c]].origin.code == c)
  }

  ghost predicate RoutesValid(list: seq<Airport>, a: Airport)
    reads a`routes, a`routeHash, a`outweight
  {
    RoutesOk(list, a.routes, a.routeHash, a.outweight)
  }

  /** Appending an edge to a listed airport whose code is not yet in the
      route hash keeps the routes valid. */
  lemma AddEdgeKeepsRoutesOk(list: seq<Airport>, routes: seq<Edge>, routeHash: map<string, int>, outweight: int, b: Airport)
    requires RoutesOk(list, routes, routeHash, outweight) && b in list && b.code !in routeHash
    ensures RoutesOk(list, routes + [Edge(b, 1)], routeHash[b.code := |routes|], outweight + 1)
  {
    var routes', routeHash' := routes + [Edge(b, 1)], routeHash[b.code := |routes|];
    forall c | c in routeHash'
      ensures 0 <= routeHash'[c] < |routes'| && routes'[routeHash'[c]].origin.code == c
    {
      if c != b.code {
        assert routes'[routeHash[c]] == routes[routeHash[c]];
      }
    }
  }

  /** Indices are positions, and the hash covers every listed code and
      points at its last airport. */
  ghost predicate Indexed(list: seq<Airport>, hash: map<string, Airport>)
  {
    && (forall k :: 0 <= k < |list| ==> list[k].pageIndex == k)
    && (forall c {:trigger HashEntry(list, hash, c)} :: c in hash ==> HashEntry(list, hash, c))
    && (forall k :: 0 <= k < |list| ==> list[k].code in hash)
  }

  /** Indexed, and every airport's routes are valid. */
  ghost predicate Consistent(list: seq<Airport>, hash: map<string, Airport>)
    reads list`routes, list`routeHash, list`outweight
  {
    && Indexed(list, hash)
    && (forall k {:trigger RoutesValid(list, list[k])} :: 0 <= k < |list| ==> RoutesValid(list, list[k]))
  }

  /** Appending a fresh airport with no routes and the next index, and
      pointing its code at it, keeps the graph consistent. */
  lemma AppendKeepsConsistent(list: seq<Airport>, hash: map<string, Airport>, a: Airport)
    requires Consistent(list, hash) && a !in list
    requires a.pageIndex == |list| && a.routes == [] && a.routeHash == map[] && a.outweight == 0
    ensures Consistent(list + [a], hash[a.code := a])
  {
    var list', hash' := list + [a], hash[a.code := a];
    forall c | c in hash' ensures HashEntry(list', hash', c) {
      if c != a.code {
        assert HashEntry(list, hash, c);
      }
    }
    forall k | 0 <= k < |list'| ensures RoutesValid(list', list'[k]) {
      if k < |list| {
        assert RoutesValid(list, list[k]);
      }
    }
  }

  class Airport {
    const code: string
    const name: string
    const pageIndex: int
    var routes: seq<Edge>
    var routeHash: map<string, int>
    var outweight: int
    /** Set by computePageRanks; nothing reads it before then. */
    var pageRank: real

    /** `Airport()` with `pageIndex = len(airportList)` and the parsed code
        and name; routes, route hash and out-weight start empty. */
    constructor (code: string, name: string, index: int)
      ensures this.code == code && this.name == name && pageIndex == index
      ensures routes == [] && routeHash == map[] && outweight == 0
    {
      this.code, this.name, pageIndex := code, name, index;
      routes, routeHash, outweight := [], map[], 0;
    }
  }

  class Network {
    var airportList: seq<Airport>
    var airportHash: map<string, Airport>

    constructor ()
      ensures Valid() && airportList == [] && airportHash == map[]
    {
      airportList, airportHash := [], map[];
    }

    /** The invariant readAirports and readRoutes keep. */
    ghost predicate Valid()
      reads this, airportList`routes, airportList`routeHash, airportList`outweight
    {
      Consistent(airportList, airportHash)
    }

    /** pageIndex of airportHash[c], for every known code. */
    ghost function HashIndex(): (index: map<string, int>)
      reads this
      requires Indexed(airportList, airportHash)
      ensures index.Keys == airportHash.Keys
      ensures forall c :: c in index ==> index[c] == airportHash[c].pageIndex && 0 <= index[c] < |airportList|
    {
      assert forall c :: c in airportHash ==> HashEntry(airportList, airportHash, c);
      map c | c in airportHash :: airportHash[c].pageIndex
    }

    /** For every airport, the target codes of its routes. */
    ghost function RouteTable(): (t: RouteTable)
      reads this, airportList`routes, airportList`routeHash, airportList`outweight
      requires Valid()
      ensures |t| == |airportList|
    {
      RouteRows(|airportList|)
    }

    /** The rows of RouteTable() for the first n airports. */
    ghost function RouteRows(n: nat): (t: RouteTable)
      reads this, airportList`routes, airportList`routeHash, airportList`outweight
      requires Valid() && n <= |airportList|
      ensures |t| == n
      ensures forall k {:trigger t[k]} :: 0 <= k < n ==>
        RoutesValid(airportList, airportList[k]) && t[k] == TargetCodes(airportList[k].routes)
    {
      if n == 0 then []
      else
        assert RoutesValid(airportList, airportList[n - 1]);
        RouteRows(n - 1) + [TargetCodes(airportList[n - 1].routes)]
    }

    /** For every airport, `airportHash[edge.origin.code].pageIndex` of each
        of its routes: the rows the matrix construction writes to. */
    ghost function Adjacency(): (adj: seq<seq<int>>)
      reads this, airportList`routes, airportList`routeHash, airportList`outweight
      requires Valid()
      ensures |adj| == |airportList|
    {
      AdjacencyRows(|airportList|)
    }

    /** The rows of Adjacency() for the first n airports. */
    ghost function AdjacencyRows(n: nat): (adj: seq<seq<int>>)
      reads this, airportList`routes, airportList`routeHash, airportList`outweight
      requires Valid() && n <= |airportList|
      ensures |adj| == n
      ensures forall k {:trigger adj[k]} :: 0 <= k < n ==>
        RoutesValid(airportList, airportList[k]) && adj[k] == TargetIndices(airportHash, airportList[k].routes)
    {
      if n == 0 then []
      else
        var a := airportList[n - 1];
        assert RoutesValid(airportList, a);
        assert forall m :: 0 <= m < |a.routes| ==> a.routes[m].origin in airportList;
        AdjacencyRows(n - 1) + [TargetIndices(airportHash, a.routes)]
    }

    /** The adjacency of a valid network is well formed: targets are listed
        airports and no airport has two routes to the same one. */
    lemma AdjacencyWellFormed()
      requires Valid()
      ensures WellFormed(|airportList|, Adjacency())
    {
      var n, adj := |airportList|, Adjacency();
      forall i, p, q | 0 <= i < n && 0 <= p < q < |adj[i]|
        ensures adj[i][p] != adj[i][q]
      {
        var a := airportList[i];
        assert RoutesValid(airportList, a);
        var cp, cq := a.routes[p].origin.code, a.routes[q].origin.code;
        assert a.routeHash[cp] == p && a.routeHash[cq] == q;
        assert HashEntry(airportList, airportHash, cp) && HashEntry(airportList, airportHash, cq);
      }
      forall i, p | 0 <= i < n && 0 <= p < |adj[i]|
        ensures 0 <= adj[i][p] < n
      {
        var a := airportList[i];
        assert RoutesValid(airportList, a);
        var c := a.routes[p].origin.code;
        assert HashEntry(airportList, airportHash, c);
      }
    }

    /** The damped matrix of this network, which is column-stochastic. */
    ghost function Matrix(): (M: seq<seq<real>>)
      reads this, airportList`routes, airportList`routeHash, airportList`outweight
      requires Valid()
      ensures |M| == |airportList| && ColumnStochastic(M)
    {
      AdjacencyWellFormed();
      StochasticMatrix(|airportList|, Adjacency())
    }

    /** `airportList.append(a); airportHash[a.code] = a` for a new airport. */
    method Append(a: Airport)
      requires Valid() && a !in airportList
      requires a.pageIndex == |airportList| && a.routes == [] && a.routeHash == map[] && a.outweight == 0
      modifies this
      ensures Valid()
      ensures airportList == old(airportList) + [a] && airportHash == old(airportHash)[a.code := a]
      ensures RouteTable() == old(RouteTable()) + [[]]
    {
      ghost var table := RouteTable();
      AppendKeepsConsistent(airportList, airportHash, a);
      assert (airportList + [a])[..|airportList|] == airportList;
      airportList := airportList + [a];
      airportHash := airportHash[a.code := a];
      assert TargetCodes(a.routes) == [];
      assert forall k :: 0 <= k < |table| ==> RouteTable()[k] == table[k];
    }

    /** One pass of readAirports' loop: a new Airport is built for the line
        and appended only when the line is accepted. */
    method ReadAirport(line: string) returns (ok: bool)
      requires Valid()
      modifies this
      ensures Valid()
      ensures ok == ParseAirport(line).Some?
      ensures ok ==> |airportList| == old(|airportList|) + 1 && airportList == old(airportList) + [airportList[|airportList| - 1]]
      ensures ok ==> fresh(airportList[|airportList| - 1]) && Holds(airportList[|airportList| - 1], ParseAirport(line).value)
      ensures ok ==> var a := airportList[|airportList| - 1]; a.routes == [] && a.routeHash == map[] && a.outweight == 0
      ensures ok ==> RouteTable() == old(RouteTable()) + [[]]
      ensures !ok ==> airportList == old(airportList) && airportHash == old(airportHash)
    {
      var temp := Split(line, ',');
      ok := |temp| >= 5 && |temp[4]| == 5;
      if ok {
        var a := new Airport(Strip(temp[4]), Strip(temp[1]) + ", " + Strip(temp[3]), |airportList|);
        Append(a);
      }
    }

    /** readAirports: every accepted line appends a fresh airport whose
        pageIndex is its position and points airportHash at it.  The new
        airports have no routes yet; the airports already listed are not
        modified. */
    method ReadAirports(lines: seq<string>) returns (cont: nat)
      requires Valid()
      modifies this
      ensures Valid()
      ensures cont == |ParseAirports(lines)|
      ensures |airportList| == old(|airportList|) + cont
      ensures airportList[..old(|airportList|)] == old(airportList)
      ensures forall k :: 0 <= k < cont ==> Holds(airportList[old(|airportList|) + k], ParseAirports(lines)[k])
      ensures forall k :: old(|airportList|) <= k < |airportList| ==>
        fresh(airportList[k]) && airportList[k].routes == [] && airportList[k].routeHash == map[] && airportList[k].outweight == 0
    {
      cont := 0;
      ghost var list0 := airportList;
      ghost var accepted: seq<AirportRecord> := [];
      for idx := 0 to |lines|
        invariant Valid()
        invariant accepted == ParseAirports(lines[..idx])
        invariant cont == |accepted|
        invariant |airportList| == |list0| + cont
        invariant airportList[..|list0|] == list0
        invariant forall k :: 0 <= k < cont ==> Holds(airportList[|list0| + k], accepted[k])
        invariant forall k :: |list0| <= k < |airportList| ==>
          fresh(airportList[k]) && airportList[k].routes == [] && airportList[k].routeHash == map[] && airportList[k].outweight == 0
      {
        assert lines[..idx + 1][..idx] == lines[..idx];
        var ok := ReadAirport(lines[idx]);
        if ok {
          accepted := accepted + [ParseAirport(lines[idx]).value];
          cont := cont + 1;
        }
      }
      assert lines[..|lines|] == lines;
    }


    /** Airports after the first n without routes add empty rows to the
        table of the first n. */
    lemma BlankRouteRows(n: nat, table: RouteTable)
      requires Valid() && n <= |airportList| && |table| == n
      requires forall k :: 0 <= k < n ==> table[k] == TargetCodes(airportList[k].routes)
      requires forall k :: n <= k < |airportList| ==> airportList[k].routes == []
      ensures RouteTable() == table + NoRoutes(|airportList| - n)
    {
      forall k | 0 <= k < |airportList| ensures RouteTable()[k] == (table + NoRoutes(|airportList| - n))[k] {
        if n <= k {
          assert TargetCodes(airportList[k].routes) == [];
        }
      }
    }

    /** `a.routeHash[b.code] = len(a.routes); a.routes.append(Edge(b));
        a.outweight += 1` for a target code a has no route to yet. */
    method AddEdge(a: Airport, b: Airport)
      requires Valid() && a in airportList && b in airportList && b.code !in a.routeHash
      modifies a`routes, a`routeHash, a`outweight
      ensures Valid()
      ensures RouteTable() == old(RouteTable())[a.pageIndex := old(RouteTable())[a.pageIndex] + [b.code]]
    {
      ghost var table := RouteTable();
      ghost var routes, routeHash, outweight := a.routes, a.routeHash, a.outweight;
      assert airportList[a.pageIndex] == a && RoutesValid(airportList, airportList[a.pageIndex]);
      a.routeHash, a.routes, a.outweight := a.routeHash[b.code := |a.routes|], a.routes + [Edge(b, 1)], a.outweight + 1;
      forall k | 0 <= k < |airportList| && k != a.pageIndex
        ensures RoutesOk(airportList, airportList[k].routes, airportList[k].routeHash, airportList[k].outweight)
        ensures table[k] == TargetCodes(airportList[k].routes)
      {
        assert airportList[k] != a;
        assert old(RoutesValid(airportList, airportList[k]));
      }
      EdgeAppended(a, b, routes, routeHash, outweight, table);
    }

    /** The airports after AddEdge: a's routes, route hash and out-weight
        gained the edge to b, and every other airport is as it was. */
    lemma EdgeAppended(a: Airport, b: Airport, routes: seq<Edge>, routeHash: map<string, int>, outweight: int, table: RouteTable)
      requires Indexed(airportList, airportHash) && a in airportList && b in airportList
      requires RoutesOk(airportList, routes, routeHash, outweight) && b.code !in routeHash
      requires a.routes == routes + [Edge(b, 1)] && a.routeHash == routeHash[b.code := |routes|] && a.outweight == outweight + 1
      requires |table| == |airportList| && table[a.pageIndex] == TargetCodes(routes)
      requires forall k :: 0 <= k < |airportList| && k != a.pageIndex ==>
        RoutesOk(airportList, airportList[k].routes, airportList[k].routeHash, airportList[k].outweight)
      requires forall k :: 0 <= k < |airportList| && k != a.pageIndex ==> table[k] == TargetCodes(airportList[k].routes)
      ensures Valid()
      ensures RouteTable() == table[a.pageIndex := table[a.pageIndex] + [b.code]]
    {
      ghost var p := a.pageIndex;
      AddEdgeKeepsRoutesOk(airportList, routes, routeHash, outweight, b);
      assert TargetCodes(a.routes) == TargetCodes(routes) + [b.code] by {
        assert a.routes[..|routes|] == routes;
      }
      forall k | 0 <= k < |airportList| ensures RoutesValid(airportList, airportList[k]) {
        if k == p {
          assert airportList[k] == a;
        }
      }
      assert Valid();
      ghost var table' := RouteTable();
      forall k | 0 <= k < |airportList| ensures table'[k] == table[p := table[p] + [b.code]][k] {
        if k == p {
          assert airportList[k] == a;
        }
      }
    }

    /** One pass of readRoutes' loop: the route is added to its source
        airport exactly when AddRoute accepts the line. */
    method ReadRoute(line: string) returns (ok: bool)
      requires Valid()
      modifies airportList`routes, airportList`routeHash, airportList`outweight
      ensures Valid()
      ensures (RouteTable(), ok) == AddRoute(old(RouteTable()), HashIndex(), line)
    {
      ghost var table := RouteTable();
      var temp := Split(line, ',');
      if |temp| < 5 || |temp[2]| != 3 || |temp[4]| != 3 {
        return false;
      }
      if temp[2] !in airportHash || temp[4] !in airportHash {
        return false;
      }
      var a, b := airportHash[temp[2]], airportHash[temp[4]];
      assert HashEntry(airportList, airportHash, temp[2]) && HashEntry(airportList, airportHash, temp[4]);
      ghost var p := a.pageIndex;
      assert airportList[p] == a && RoutesValid(airportList, a);
      if b.code in a.routeHash {
        assert table[p][a.routeHash[b.code]] == b.code;
        return false;
      }
      assert b.code !in table[p];
      AddEdge(a, b);
      ok := true;
    }

    /** readRoutes: the route table after the file is LoadRoutes of the one
        before, and cont counts the accepted lines. */
    method ReadRoutes(lines: seq<string>) returns (cont: nat)
      requires Valid()
      modifies airportList`routes, airportList`routeHash, airportList`outweight
      ensures Valid()
      ensures var r := LoadRoutes(old(RouteTable()), HashIndex(), lines);
        RouteTable() == r.table && cont == r.accepted
    {
      cont := 0;
      ghost var table0 := RouteTable();
      for idx := 0 to |lines|
        invariant Valid()
        invariant var r := LoadRoutes(table0, HashIndex(), lines[..idx]);
          RouteTable() == r.table && cont == r.accepted
      {
        assert lines[..idx + 1][..idx] == lines[..idx];
        var ok := ReadRoute(lines[idx]);
        if ok {
          cont := cont + 1;
        }
      }
      assert lines[..|lines|] == lines;
    }

    /** getProbabilityMatrix: P is filled column by column in place (1/n
        down a column without routes, 1/outweight at each route target
        otherwise), then damped. */
    method GetProbabilityMatrix() returns (Pa: seq<seq<real>>)
      requires Valid()
      ensures Pa == DampedMatrix(|airportList|, Adjacency())
    {
      var n := |airportList|;
      ghost var adj := Adjacency();
      AdjacencyWellFormed();
      forall i | 0 <= i < n
        ensures RouteColumn(airportList[i], airportHash, adj[i])
      {
        var a := airportList[i];
        assert RoutesValid(airportList, a);
        assert forall m :: 0 <= m < |a.routes| ==> a.routes[m].origin in airportList;
      }
      var P := TransitionArray(airportList, airportHash, adj);
      Pa := seq(n, j requires 0 <= j < n reads P =>
        seq(n, i requires 0 <= i < n reads P => Alpha / n as real + (1.0 - Alpha) * P[j, i]));
      assert forall j, i :: 0 <= j < n && 0 <= i < n ==> Pa[j][i] == DampedMatrix(n, adj)[j][i];
      assert forall j :: 0 <= j < n ==> Pa[j] == DampedMatrix(n, adj)[j];
    }

    /** computePageRanks, with at most maxPasses passes instead of an
        unbounded loop: iterations counts the passes that missed the
        threshold, and on convergence every airport gets its entry of the
        iterate before the one that met it. */
    method ComputePageRanks(maxPasses: nat) returns (converged: bool, iterations: nat)
      requires Valid()
      modifies airportList`pageRank
      ensures Valid()
      ensures iterations <= maxPasses
      ensures forall k :: 0 <= k < iterations ==> !ConvergesAt(old(Matrix()), k)
      ensures converged ==> ConvergesAt(old(Matrix()), iterations)
      ensures converged ==> forall k :: 0 <= k < |airportList| ==>
        airportList[k].pageRank == Iterate(old(Matrix()), iterations)[k]
      ensures !converged ==> iterations == maxPasses
      ensures !converged ==> forall k :: 0 <= k < |airportList| ==>
        airportList[k].pageRank == old(airportList[k].pageRank)
    {
      var Pa := GetProbabilityMatrix();
      assert Pa == Matrix();
      var x;
      converged, iterations, x := PowerIteration(Pa, maxPasses);
      if converged {
        StoreRanks(x);
      }
    }

    /** The closing loop of computePageRanks: airport k gets x[k]. */
    method StoreRanks(x: seq<real>)
      requires Valid() && |x| == |airportList|
      modifies airportList`pageRank
      ensures Valid()
      ensures forall k :: 0 <= k < |airportList| ==> airportList[k].pageRank == x[k]
    {
      assert forall k :: 0 <= k < |airportList| ==> airportList[k].pageIndex == k;
      for i := 0 to |airportList|
        invariant forall k :: 0 <= k < i ==> airportList[k].pageRank == x[k]
      {
        airportList[i].pageRank := x[i];
      }
    }
  }

  /** The ingestion of main: readAirports then readRoutes on an empty
      network.  The airports are the accepted airport lines in order, and
      the route table is what the route lines load into a table of empty
      rows, so getProbabilityMatrix sees Adjacency() of that table. */
  method LoadNetwork(airportLines: seq<string>, routeLines: seq<string>)
    returns (net: Network, airports: nat, routes: nat)
    ensures fresh(net) && net.Valid()
    ensures airports == |ParseAirports(airportLines)| && |net.airportList| == airports
    ensures forall k :: 0 <= k < airports ==> Holds(net.airportList[k], ParseAirports(airportLines)[k])
    ensures var r := LoadRoutes(NoRoutes(airports), net.HashIndex(), routeLines);
      net.RouteTable() == r.table && routes == r.accepted
  {
    net := new Network();
    airports := net.ReadAirports(airportLines);
    net.BlankRouteRows(0, []);
    assert [] + NoRoutes(airports) == NoRoutes(airports);
    ghost var blank, index := net.RouteTable(), net.HashIndex();
    assert blank == NoRoutes(airports);
    ghost var list := net.airportList;
    routes := net.ReadRoutes(routeLines);
    assert net.airportList == list && net.HashIndex() == index;
    assert (net.RouteTable(), routes) == (LoadRoutes(blank, index, routeLines).table, LoadRoutes(blank, index, routeLines).accepted);
  }
}
