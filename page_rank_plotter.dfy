/** The computePageRanks variant of the plotting script: it keeps every
    iterate in a history list, counts iterations from 1 and multiplies by
    Pa without renormalising. Reading airports and routes and building Pa
    are the same as in the PageRank module and are reused from it. */
module PageRankPlotter {
  import opened RealSums
  import opened Matrices
  import opened PageRank

  /** x_0 = the uniform vector, x_{k+1} = M x_k: the iterates without the
      division by their sum. Their sum stays 1 because M is
      column-stochastic. */
  function PlainIterate(M: seq<seq<real>>, k: nat): (x: seq<real>)
    requires ColumnStochastic(M)
    ensures |x| == |M|
    ensures |x| == 0 || VecSum(x) == 1.0
  {
    if k == 0 then
      if |M| > 0 then UniformSum(|M|); Uniform(|M|) else Uniform(|M|)
    else PlainStep(M, PlainIterate(M, k - 1))
  }

  /** x_new = Pa x, which keeps a unit sum. */
  function PlainStep(M: seq<seq<real>>, x: seq<real>): (r: seq<real>)
    requires ColumnStochastic(M) && |x| == |M|
    requires |x| == 0 || VecSum(x) == 1.0
    ensures |r| == |M|
    ensures |r| == 0 || VecSum(r) == 1.0
  {
    MatVecKeepsSum(M, x);
    MatVec(M, x)
  }

  /** [x_0, ..., x_{n-1}]: the history after n vectors were recorded. */
  function Iterates(M: seq<seq<real>>, n: nat): (h: seq<seq<real>>)
    requires ColumnStochastic(M)
    ensures |h| == n
    ensures forall k {:trigger h[k]} :: 0 <= k < n ==> h[k] == PlainIterate(M, k)
  {
    if n == 0 then [] else Iterates(M, n - 1) + [PlainIterate(M, n - 1)]
  }

  /** Pass k (counting from 0) is the one that meets the threshold. */
  predicate PlainConvergesAt(M: seq<seq<real>>, k: nat)
    requires ColumnStochastic(M)
  {
    Close(PlainIterate(M, k + 1), PlainIterate(M, k))
  }

  /** Over exact reals the renormalisation of the PageRank module is the
      identity, so both scripts compute the same iterates. */
  lemma {:induction false} PlainIterateAgrees(M: seq<seq<real>>, k: nat)
    requires ColumnStochastic(M)
    ensures PlainIterate(M, k) == Iterate(M, k)
  {
    if k > 0 {
      PlainIterateAgrees(M, k - 1);
      var y := MatVec(M, Iterate(M, k - 1));
      if |y| > 0 {
        MatVecKeepsSum(M, Iterate(M, k - 1));
        NormalizeUnitSum(y);
      }
    }
  }

  /** Both scripts stop at the same pass: when PageRank reports i
      iterations and the plotter i', then i' == i + 1 and the ranks both
      store are the same vector. */
  lemma SameStoppingPass(M: seq<seq<real>>, i: nat, i': nat)
    requires ColumnStochastic(M) && 1 <= i'
    requires forall k :: 0 <= k < i ==> !ConvergesAt(M, k)
    requires ConvergesAt(M, i)
    requires forall k :: 0 <= k < i' - 1 ==> !PlainConvergesAt(M, k)
    requires PlainConvergesAt(M, i' - 1)
    ensures i' == i + 1 && PlainIterate(M, i' - 1) == Iterate(M, i)
  {
    PlainIterateAgrees(M, i);
    PlainIterateAgrees(M, i + 1);
    PlainIterateAgrees(M, i' - 1);
    PlainIterateAgrees(M, i');
    assert PlainConvergesAt(M, i) == ConvergesAt(M, i);
    assert PlainConvergesAt(M, i' - 1) == ConvergesAt(M, i' - 1);
  }

  /** None of the first n - 1 passes met the threshold. */
  ghost predicate NotConvergedBefore(M: seq<seq<real>>, n: nat)
    requires ColumnStochastic(M)
  {
    forall k :: 0 <= k && k + 1 < n ==> !PlainConvergesAt(M, k)
  }

  /** One pass of the loop below computes the next iterate and its
      threshold test is PlainConvergesAt. */
  lemma NextPlainIterate(M: seq<seq<real>>, k: nat)
    requires ColumnStochastic(M)
    ensures MatVec(M, PlainIterate(M, k)) == PlainIterate(M, k + 1)
    ensures PlainConvergesAt(M, k) == Close(PlainIterate(M, k + 1), PlainIterate(M, k))
  {
  }

  /** The plotter's loop with at most maxPasses passes: history holds
      x_0 .. x_m, one vector appended per pass before the threshold test;
      iterations starts at 1 and counts the passes that missed the
      threshold, plus one; x is the iterate before the last one. */
  method PlotterIteration(M: seq<seq<real>>, maxPasses: nat)
    returns (converged: bool, iterations: nat, x: seq<real>, history: seq<seq<real>>)
    requires ColumnStochastic(M)
    ensures 1 <= iterations <= maxPasses + 1
    ensures history == Iterates(M, if converged then iterations + 1 else iterations)
    ensures x == PlainIterate(M, iterations - 1)
    ensures NotConvergedBefore(M, iterations)
    ensures converged ==> PlainConvergesAt(M, iterations - 1)
    ensures !converged ==> iterations == maxPasses + 1
  {
    x := Uniform(|M|);
    history := [x];
    assert history == Iterates(M, 1);
    iterations, converged := 1, false;
    ghost var passes := 0;
    while iterations <= maxPasses
      invariant iterations == passes + 1 && passes <= maxPasses
      invariant history == Iterates(M, passes + 1)
      invariant x == PlainIterate(M, passes)
      invariant NotConvergedBefore(M, passes + 1)
      decreases maxPasses - passes
    {
      var xNew := MatVec(M, x);
      NextPlainIterate(M, passes);
      history := history + [xNew];
      converged := Close(xNew, x);
      if converged {
        return;
      }
      x := xNew;
      iterations, passes := iterations + 1, passes + 1;
    }
  }

  /** computePageRanks of the plotting script on a network: Pa as in the
      PageRank module, the loop above, and on convergence airport k gets
      entry k of the iterate before the last. */
  method ComputePageRanks(net: Network, maxPasses: nat)
    returns (converged: bool, iterations: nat, history: seq<seq<real>>)
    requires net.Valid()
    modifies net.airportList`pageRank
    ensures net.Valid()
    ensures 1 <= iterations <= maxPasses + 1
    ensures |history| == if converged then iterations + 1 else iterations
    ensures forall k :: 0 <= k < |history| ==> history[k] == PlainIterate(old(net.Matrix()), k)
    ensures forall k :: 0 <= k < iterations - 1 ==> !PlainConvergesAt(old(net.Matrix()), k)
    ensures converged ==> PlainConvergesAt(old(net.Matrix()), iterations - 1)
    ensures converged ==> forall k :: 0 <= k < |net.airportList| ==>
      net.airportList[k].pageRank == PlainIterate(old(net.Matrix()), iterations - 1)[k]
    ensures !converged ==> iterations == maxPasses + 1
    ensures !converged ==> forall k :: 0 <= k < |net.airportList| ==>
      net.airportList[k].pageRank == old(net.airportList[k].pageRank)
  {
    var Pa := net.GetProbabilityMatrix();
    assert Pa == net.Matrix();
    var x;
    converged, iterations, x, history := PlotterIteration(Pa, maxPasses);
    if converged {
      net.StoreRanks(x);
    }
  }
}
