/** What the passes, the step and the seeding guarantee, whatever the draws. */
module SirFacts {
  import opened Sir

  /** b differs from a only where pass p gave an eligible node its target label. */
  predicate Moves(p: Pass, a: seq<Label>, b: seq<Label>)
  {
    |a| == |b| && forall v :: 0 <= v < |a| ==> b[v] == a[v] || (Eligible(p, a[v]) && b[v] == Target(p))
  }

  /** v is a neighbour of some node of the bucket list. */
  predicate Touches(net: Network, bucket: seq<nat>, v: nat)
  {
    exists k :: 0 <= k < |bucket| && bucket[k] < net.Size() && v in net.adj[bucket[k]]
  }

  /** A target label is never eligible again in the same pass, so two runs of
      relabelling compose into one. */
  lemma MovesTransitive(p: Pass, a: seq<Label>, b: seq<Label>, c: seq<Label>)
    requires Moves(p, a, b) && Moves(p, b, c)
    ensures Moves(p, a, c)
  {
  }

  /** The first j iterations of the neighbour loop only give eligible
      neighbours of u the target label, and only neighbours they visited; they
      never rewind the draw stream. */
  lemma {:induction false} VisitNeighboursMoves(p: Pass, st: Run, u: nat, nbrs: seq<nat>, j: nat, coef: real, net: Network, draws: nat -> real)
    requires net.Valid() && |st.labels| == net.Size() && u < net.Size() && InRange(nbrs, net.Size()) && j <= |nbrs|
    ensures var r := VisitNeighbours(p, st, u, nbrs, j, coef, net, draws);
      && Moves(p, st.labels, r.labels)
      && (forall v :: 0 <= v < |st.labels| && r.labels[v] != st.labels[v] ==> v in nbrs[..j])
      && st.t <= r.t
  {
    if j > 0 {
      VisitNeighboursMoves(p, st, u, nbrs, j - 1, coef, net, draws);
      var mid := VisitNeighbours(p, st, u, nbrs, j - 1, coef, net, draws);
      var r := Visit(p, mid, u, nbrs[j - 1], coef, net, draws);
      assert Moves(p, mid.labels, r.labels);
      MovesTransitive(p, st.labels, mid.labels, r.labels);
      forall v | 0 <= v < |st.labels| && r.labels[v] != st.labels[v]
        ensures v in nbrs[..j]
      {
        if mid.labels[v] != st.labels[v] {
          assert v in nbrs[..j - 1];
          assert nbrs[..j - 1] <= nbrs[..j];
        } else {
          assert v == nbrs[..j][j - 1];
        }
      }
    }
  }

  /** The first k iterations of a pass (s_to_i for Infect, s_i_to_r for
      Recover) move labels only forward, from an eligible label to the target,
      and only on neighbours of the nodes bucket[0..k); the whole pass is k = |bucket|. */
  lemma {:induction false} SpreadFromMoves(p: Pass, st: Run, bucket: seq<nat>, k: nat, coef: real, net: Network, draws: nat -> real)
    requires net.Valid() && |st.labels| == net.Size() && InRange(bucket, net.Size()) && k <= |bucket|
    ensures var r := SpreadFrom(p, st, bucket, k, coef, net, draws);
      && Moves(p, st.labels, r.labels)
      && (forall v :: 0 <= v < |st.labels| && r.labels[v] != st.labels[v] ==> Touches(net, bucket[..k], v))
      && st.t <= r.t
  {
    if k > 0 {
      var u := bucket[k - 1];
      SpreadFromMoves(p, st, bucket, k - 1, coef, net, draws);
      var mid := SpreadFrom(p, st, bucket, k - 1, coef, net, draws);
      VisitNeighboursMoves(p, mid, u, net.adj[u], |net.adj[u]|, coef, net, draws);
      var r := VisitNeighbours(p, mid, u, net.adj[u], |net.adj[u]|, coef, net, draws);
      MovesTransitive(p, st.labels, mid.labels, r.labels);
      forall v | 0 <= v < |st.labels| && r.labels[v] != st.labels[v]
        ensures Touches(net, bucket[..k], v)
      {
        if mid.labels[v] != st.labels[v] {
          var i :| 0 <= i < k - 1 && bucket[..k - 1][i] < net.Size() && v in net.adj[bucket[..k - 1][i]];
          assert bucket[..k][i] == bucket[..k - 1][i];
        } else {
          assert net.adj[u][..|net.adj[u]|] == net.adj[u];
          assert bucket[..k][k - 1] == u;
        }
      }
    }
  }

  /** With coefficient 0 the threshold is 0, no draw of [0, 1) is below it, and
      the neighbour loop leaves every label as it was. */
  lemma {:induction false} VisitNeighboursZero(p: Pass, st: Run, u: nat, nbrs: seq<nat>, j: nat, net: Network, draws: nat -> real)
    requires net.Valid() && |st.labels| == net.Size() && u < net.Size() && InRange(nbrs, net.Size()) && j <= |nbrs|
    requires Uniform(draws)
    ensures VisitNeighbours(p, st, u, nbrs, j, 0.0, net, draws).labels == st.labels
  {
    if j > 0 {
      VisitNeighboursZero(p, st, u, nbrs, j - 1, net, draws);
      var mid := VisitNeighbours(p, st, u, nbrs, j - 1, 0.0, net, draws);
      assert net.Weight(0.0, u) == 0.0;
      assert 0.0 <= draws(mid.t);
    }
  }

  /** With coefficient 0 the first k iterations of a pass change no label. */
  lemma {:induction false} SpreadFromZero(p: Pass, st: Run, bucket: seq<nat>, k: nat, net: Network, draws: nat -> real)
    requires net.Valid() && |st.labels| == net.Size() && InRange(bucket, net.Size()) && k <= |bucket|
    requires Uniform(draws)
    ensures SpreadFrom(p, st, bucket, k, 0.0, net, draws).labels == st.labels
  {
    if k > 0 {
      var u := bucket[k - 1];
      SpreadFromZero(p, st, bucket, k - 1, net, draws);
      var mid := SpreadFrom(p, st, bucket, k - 1, 0.0, net, draws);
      VisitNeighboursZero(p, mid, u, net.adj[u], |net.adj[u]|, net, draws);
    }
  }

  /** y is x with every label at or past its place along S -> I -> R. */
  predicate Advances(x: seq<Label>, y: seq<Label>)
  {
    |x| == |y| && forall v :: 0 <= v < |x| ==> Rank(x[v]) <= Rank(y[v])
  }

  lemma AdvancesTransitive(x: seq<Label>, y: seq<Label>, z: seq<Label>)
    requires Advances(x, y) && Advances(y, z)
    ensures Advances(x, z)
  {
  }

  /** Across one step labels move only along S -> I -> R; a node that became I
      was S and is a neighbour of the infected list; a node that became R is a
      neighbour of the recovered list. Every other node keeps its label. */
  lemma TickMoves(w: World, a: real, b: real, net: Network, draws: nat -> real)
    requires net.Valid() && Fits(w, net)
    ensures Advances(w.labels, Tick(w, a, b, net, draws).labels)
    ensures var y := Tick(w, a, b, net, draws).labels;
      && (forall v :: 0 <= v < |y| && y[v] == I && w.labels[v] != I ==> w.labels[v] == S && Touches(net, w.infected, v))
      && (forall v :: 0 <= v < |y| && y[v] == R && w.labels[v] != R ==> Touches(net, w.r, v))
  {
    var mid := SpreadFrom(Infect, Run(w.labels, w.t), w.infected, |w.infected|, a, net, draws);
    SpreadFromMoves(Infect, Run(w.labels, w.t), w.infected, |w.infected|, a, net, draws);
    SpreadFromMoves(Recover, mid, w.r, |w.r|, b, net, draws);
    assert w.infected[..|w.infected|] == w.infected;
    assert w.r[..|w.r|] == w.r;
  }

  /** Over any number of steps labels only move forward along S -> I -> R. */
  lemma {:induction false} EvolveAdvances(w: World, a: real, b: real, net: Network, draws: nat -> real, k: nat)
    requires net.Valid() && Fits(w, net)
    ensures Advances(w.labels, Evolve(w, a, b, net, draws, k).labels)
    decreases k
  {
    if k > 0 {
      var next := Tick(w, a, b, net, draws);
      TickMoves(w, a, b, net, draws);
      EvolveAdvances(next, a, b, net, draws, k - 1);
      AdvancesTransitive(w.labels, next.labels, Evolve(w, a, b, net, draws, k).labels);
    }
  }

  /** The labels after k steps are at or past those after any j <= k steps. */
  lemma {:induction false} EvolveMonotone(w: World, a: real, b: real, net: Network, draws: nat -> real, j: nat, k: nat)
    requires net.Valid() && Fits(w, net) && j <= k
    ensures Advances(Evolve(w, a, b, net, draws, j).labels, Evolve(w, a, b, net, draws, k).labels)
    decreases j
  {
    if j == 0 {
      EvolveAdvances(w, a, b, net, draws, k);
    } else {
      EvolveMonotone(Tick(w, a, b, net, draws), a, b, net, draws, j - 1, k - 1);
    }
  }

  /** If every node labelled l in y is labelled l in x, y's bucket of l is no longer than x's. */
  lemma {:induction false} CountMonotone(x: seq<Label>, y: seq<Label>, l: Label)
    requires |x| == |y|
    requires forall v :: 0 <= v < |y| && y[v] == l ==> x[v] == l
    ensures |Indices(y, l)| <= |Indices(x, l)|
    decreases |x|
  {
    if x != [] {
      var last := |x| - 1;
      CountMonotone(x[..last], y[..last], l);
    }
  }

  /** The recorded susceptible count never grows and the recorded recovered
      count never shrinks from one step to a later one. */
  lemma CountsMonotone(w: World, a: real, b: real, net: Network, draws: nat -> real, j: nat, k: nat)
    requires net.Valid() && Fits(w, net) && j <= k
    ensures var cj := Census(Evolve(w, a, b, net, draws, j).labels);
      var ck := Census(Evolve(w, a, b, net, draws, k).labels);
      ck.s <= cj.s && cj.r <= ck.r
  {
    var x := Evolve(w, a, b, net, draws, j).labels;
    var y := Evolve(w, a, b, net, draws, k).labels;
    EvolveMonotone(w, a, b, net, draws, j, k);
    CountMonotone(x, y, S);
    CountMonotone(y, x, R);
  }

  /** With both coefficients 0 no step changes any label, so every recorded
      count triple equals the initial one. */
  lemma {:induction false} FrozenWithoutCoefficients(w: World, net: Network, draws: nat -> real, k: nat)
    requires net.Valid() && Fits(w, net) && Uniform(draws)
    ensures Evolve(w, 0.0, 0.0, net, draws, k).labels == w.labels
    ensures Census(Evolve(w, 0.0, 0.0, net, draws, k).labels) == Census(w.labels)
    decreases k
  {
    if k > 0 {
      SpreadFromZero(Infect, Run(w.labels, w.t), w.infected, |w.infected|, net, draws);
      var mid := SpreadFrom(Infect, Run(w.labels, w.t), w.infected, |w.infected|, 0.0, net, draws);
      SpreadFromZero(Recover, mid, w.r, |w.r|, net, draws);
      var next := Tick(w, 0.0, 0.0, net, draws);
      assert next.labels == w.labels;
      FrozenWithoutCoefficients(next, net, draws, k - 1);
    }
  }

  /** A node ends with l exactly when some write of the sequence targets it. */
  lemma {:induction false} OverwriteAt(labels: seq<Label>, nodes: seq<nat>, l: Label, v: nat)
    requires InRange(nodes, |labels|) && v < |labels|
    ensures Overwrite(labels, nodes, l)[v] == if v in nodes then l else labels[v]
    decreases |nodes|
  {
    if nodes != [] {
      var last := |nodes| - 1;
      OverwriteAt(labels, nodes[..last], l, v);
      assert nodes == nodes[..last] + [nodes[last]];
    }
  }

  /** Writing I over the infected sample and then R over the recovered sample,
      starting from all S, yields the seeded labelling: R wins over I. */
  lemma SeedingOrder(n: nat, infected: seq<nat>, r: seq<nat>)
    requires InRange(infected, n) && InRange(r, n)
    ensures Overwrite(Overwrite(AllSusceptible(n), infected, I), r, R) == Seeded(n, infected, r)
  {
    var first := Overwrite(AllSusceptible(n), infected, I);
    forall v | 0 <= v < n
      ensures Overwrite(first, r, R)[v] == Seeded(n, infected, r)[v]
    {
      OverwriteAt(first, r, R, v);
      OverwriteAt(AllSusceptible(n), infected, I, v);
    }
  }
}
