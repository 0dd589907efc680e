/** The SIR label state machine shared by both simulation classes: node labels,
    the fixed contact network with its per-node metrics, the two spreading passes
    as they run in place, the bucket rebuild and the step-by-step evolution. */
module Sir {

  /** The label a node carries under its 'SIR' attribute. */
  datatype Label = S | I | R

  /** Position of a label along S -> I -> R. */
  function Rank(l: Label): nat
  {
    match l
    case S => 0
    case I => 1
    case R => 2
  }

  /** The contact graph over nodes 0..|adj|-1 (adj[u] lists u's neighbours in the
      order the graph yields them) together with the clustering coefficient and
      the betweenness centrality of every node. */
  datatype Network = Network(adj: seq<seq<nat>>, clustering: seq<real>, betweenness: seq<real>)
  {
    function Size(): nat
    {
      |adj|
    }

    /** Every neighbour is a node of the graph and every node has its two metrics. */
    predicate Valid()
    {
      && |clustering| == |adj|
      && |betweenness| == |adj|
      && forall u, j :: 0 <= u < |adj| && 0 <= j < |adj[u]| ==> adj[u][j] < |adj|
    }

    /** The success threshold of a trial started from node u with coefficient coef. */
    function Weight(coef: real, u: nat): real
      requires u < |clustering| && u < |betweenness|
    {
      coef * clustering[u] * betweenness[u]
    }
  }

  /** Every entry of xs is a node id below n. */
  predicate InRange(xs: seq<nat>, n: nat)
  {
    forall k :: 0 <= k < |xs| ==> xs[k] < n
  }

  /** A stream of random.random() values: each lies in [0, 1). */
  ghost predicate Uniform(draws: nat -> real)
  {
    forall t: nat :: 0.0 <= draws(t) < 1.0
  }

  /** The two spreading passes: s_to_i (infection) and s_i_to_r (recovery). */
  datatype Pass = Infect | Recover

  /** Labels a pass gives a trial to. */
  predicate Eligible(p: Pass, l: Label)
  {
    match p
    case Infect => l == S
    case Recover => l == S || l == I
  }

  /** The label a successful trial writes. */
  function Target(p: Pass): Label
  {
    match p
    case Infect => I
    case Recover => R
  }

  /** The node labels together with the index of the next value of the draw stream. */
  datatype Run = Run(labels: seq<Label>, t: nat)

  /** One neighbour v of a spreading node u: an eligible v gets one trial, which
      consumes one draw; an ineligible v is skipped without a draw. */
  function Visit(p: Pass, st: Run, u: nat, v: nat, coef: real, net: Network, draws: nat -> real): (r: Run)
    requires net.Valid() && |st.labels| == net.Size() && u < net.Size() && v < net.Size()
    ensures |r.labels| == |st.labels|
  {
    if Eligible(p, st.labels[v]) then
      Run(if draws(st.t) < net.Weight(coef, u) then st.labels[v := Target(p)] else st.labels, st.t + 1)
    else
      st
  }

  /** The inner loop after its first j iterations: the neighbours nbrs[0..j) of
      u, visited in order, each seeing the labels as the earlier visits left them. */
  function VisitNeighbours(p: Pass, st: Run, u: nat, nbrs: seq<nat>, j: nat, coef: real, net: Network, draws: nat -> real): (r: Run)
    requires net.Valid() && |st.labels| == net.Size() && u < net.Size() && InRange(nbrs, net.Size()) && j <= |nbrs|
    ensures |r.labels| == |st.labels|
  {
    if j == 0 then st
    else Visit(p, VisitNeighbours(p, st, u, nbrs, j - 1, coef, net, draws), u, nbrs[j - 1], coef, net, draws)
  }

  /** The outer loop after its first k iterations: every node u of bucket[0..k)
      in order spreads to all of its neighbours. The bucket is the list as it
      stood when the pass began; nodes relabelled by the pass do not join it. */
  function SpreadFrom(p: Pass, st: Run, bucket: seq<nat>, k: nat, coef: real, net: Network, draws: nat -> real): (r: Run)
    requires net.Valid() && |st.labels| == net.Size() && InRange(bucket, net.Size()) && k <= |bucket|
    ensures |r.labels| == |st.labels|
  {
    if k == 0 then st
    else
      var u := bucket[k - 1];
      VisitNeighbours(p, SpreadFrom(p, st, bucket, k - 1, coef, net, draws), u, net.adj[u], |net.adj[u]|, coef, net, draws)
  }

  /** Increasing sequence: no node id twice, in node order. */
  predicate Increasing(xs: seq<nat>)
  {
    forall i, j :: 0 <= i < j < |xs| ==> xs[i] < xs[j]
  }

  /** The bucket of label l: the nodes carrying l, in node order. */
  function Indices(labels: seq<Label>, l: Label): (r: seq<nat>)
    ensures |r| <= |labels|
    decreases |labels|
  {
    if labels == [] then []
    else
      var last := |labels| - 1;
      Indices(labels[..last], l) + (if labels[last] == l then [last] else [])
  }

  /** A bucket holds node ids only. */
  lemma {:induction false} IndicesInRange(labels: seq<Label>, l: Label)
    ensures InRange(Indices(labels, l), |labels|)
    decreases |labels|
  {
    if labels != [] {
      IndicesInRange(labels[..|labels| - 1], l);
    }
  }

  /** A bucket lists exactly the nodes carrying its label, each once, in node order. */
  lemma {:induction false} IndicesExact(labels: seq<Label>, l: Label)
    ensures forall v: nat :: v in Indices(labels, l) <==> v < |labels| && labels[v] == l
    ensures Increasing(Indices(labels, l))
    decreases |labels|
  {
    if labels != [] {
      var last := |labels| - 1;
      IndicesExact(labels[..last], l);
      IndicesInRange(labels[..last], l);
    }
  }

  /** The three buckets together hold every node: their sizes add up to the node count. */
  lemma {:induction false} BucketsPartition(labels: seq<Label>)
    ensures |Indices(labels, S)| + |Indices(labels, I)| + |Indices(labels, R)| == |labels|
    decreases |labels|
  {
    if labels != [] {
      var last := |labels| - 1;
      BucketsPartition(labels[..last]);
    }
  }

  /** The three bucket lists as all_s_i_r returns them (keys 's', 'i', 'r'). */
  datatype Buckets = Buckets(s: seq<nat>, i: seq<nat>, r: seq<nat>)

  /** The three bucket lengths recorded after a step. */
  datatype Counts = Counts(s: nat, i: nat, r: nat)

  /** Number of steps every driver loop runs. */
  const Steps: nat := 250

  /** The bucket sizes of a labelling; they always add up to the node count. */
  function Census(labels: seq<Label>): (c: Counts)
    ensures c.s + c.i + c.r == |labels|
  {
    BucketsPartition(labels);
    Counts(|Indices(labels, S)|, |Indices(labels, I)|, |Indices(labels, R)|)
  }

  /** Every node labelled S, as the attribute is set before seeding. */
  function AllSusceptible(n: nat): (labels: seq<Label>)
    ensures |labels| == n
  {
    seq(n, _ => S)
  }

  /** Labels after writing l to each node of nodes in order, later writes winning. */
  function Overwrite(labels: seq<Label>, nodes: seq<nat>, l: Label): (r: seq<Label>)
    requires InRange(nodes, |labels|)
    ensures |r| == |labels|
    decreases |nodes|
  {
    if nodes == [] then labels
    else
      var last := |nodes| - 1;
      Overwrite(labels, nodes[..last], l)[nodes[last] := l]
  }

  /** The labelling the constructors establish: R for the recovered sample,
      I for the infected sample outside it, S for everything else. */
  function Seeded(n: nat, infected: seq<nat>, r: seq<nat>): (labels: seq<Label>)
    ensures |labels| == n
  {
    seq(n, v => if v in r then R else if v in infected then I else S)
  }

  /** The state one step works on: labels, the infected and recovered bucket
      lists, and the index of the next draw. */
  datatype World = World(labels: seq<Label>, infected: seq<nat>, r: seq<nat>, t: nat)

  predicate Fits(w: World, net: Network)
  {
    |w.labels| == net.Size() && InRange(w.infected, net.Size()) && InRange(w.r, net.Size())
  }

  /** One step of the drivers: s_to_i(a), then s_i_to_r(b), then all_s_i_r. */
  function Tick(w: World, a: real, b: real, net: Network, draws: nat -> real): (w': World)
    requires net.Valid() && Fits(w, net)
    ensures Fits(w', net)
  {
    var mid := SpreadFrom(Infect, Run(w.labels, w.t), w.infected, |w.infected|, a, net, draws);
    var end := SpreadFrom(Recover, mid, w.r, |w.r|, b, net, draws);
    IndicesInRange(end.labels, I);
    IndicesInRange(end.labels, R);
    World(end.labels, Indices(end.labels, I), Indices(end.labels, R), end.t)
  }

  /** The state after k steps: one step, then k - 1 more from where it left off.
      (w joins the decreases clause so that a literal step count such as 250 is
      not unrolled step by step by the verifier.) */
  function Evolve(w: World, a: real, b: real, net: Network, draws: nat -> real, k: nat): (w': World)
    requires net.Valid() && Fits(w, net)
    ensures Fits(w', net)
    decreases k, w
  {
    if k == 0 then w else Evolve(Tick(w, a, b, net, draws), a, b, net, draws, k - 1)
  }

  /** The count triples a driver records over a run of the given number of
      steps: the census after the first step, then the record of the rest. */
  function History(w: World, a: real, b: real, net: Network, draws: nat -> real, steps: nat): (h: seq<Counts>)
    requires net.Valid() && Fits(w, net)
    ensures |h| == steps
    decreases steps, w
  {
    if steps == 0 then []
    else
      var next := Tick(w, a, b, net, draws);
      [Census(next.labels)] + History(next, a, b, net, draws, steps - 1)
  }

  /** Entry k of the recorded history is the census after k + 1 steps. */
  lemma {:induction false} HistoryAt(w: World, a: real, b: real, net: Network, draws: nat -> real, steps: nat, k: nat)
    requires net.Valid() && Fits(w, net) && k < steps
    ensures History(w, a, b, net, draws, steps)[k] == Census(Evolve(w, a, b, net, draws, k + 1).labels)
    decreases k
  {
    var next := Tick(w, a, b, net, draws);
    if k > 0 {
      HistoryAt(next, a, b, net, draws, steps - 1, k - 1);
    }
  }

  /** Every recorded triple adds up to the node count. */
  lemma HistoryConserves(w: World, a: real, b: real, net: Network, draws: nat -> real, steps: nat)
    requires net.Valid() && Fits(w, net)
    ensures var h := History(w, a, b, net, draws, steps);
      forall k :: 0 <= k < steps ==> h[k].s + h[k].i + h[k].r == net.Size()
  {
    forall k | 0 <= k < steps
      ensures History(w, a, b, net, draws, steps)[k].s + History(w, a, b, net, draws, steps)[k].i
        + History(w, a, b, net, draws, steps)[k].r == net.Size()
    {
      HistoryAt(w, a, b, net, draws, steps, k);
    }
  }

  /** The three recorded series agree, entry by entry, with the start of the history h. */
  predicate Records(s: seq<nat>, infected: seq<nat>, r: seq<nat>, h: seq<Counts>)
  {
    && |s| == |infected| == |r| <= |h|
    && forall k :: 0 <= k < |s| ==> Counts(s[k], infected[k], r[k]) == h[k]
  }

  /** Appending the next entry of h to the three series keeps them in step with h. */
  lemma RecordsAppend(s: seq<nat>, infected: seq<nat>, r: seq<nat>, h: seq<Counts>, c: Counts)
    requires Records(s, infected, r, h) && |s| < |h| && h[|s|] == c
    ensures Records(s + [c.s], infected + [c.i], r + [c.r], h)
  {
  }

  /** The infected column of a history. */
  function InfectedSeries(h: seq<Counts>): (xs: seq<nat>)
    ensures |xs| == |h|
  {
    seq(|h|, k requires 0 <= k < |h| => h[k].i)
  }
}
