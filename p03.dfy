/** The simulation class of p03.py: the seed counts derived from the node
    count, the integer susceptible tally set by the constructor, the same
    passes and bucket rebuild, and the 250-step record loop of main. */
module P03 {
  import opened Sir
  import opened SirFacts

  /** Node count of the default network main builds. */
  const DefaultNodes: nat := 1000

  /** r_0: one recovered node per thousand, truncated, and at least one.
      The double nearest to 0.001 lies slightly above it, so int(n * 0.001)
      never falls below the exact quotient n / 1000; for n below about
      8.79 * 10^15 the rounded product also stays below the next integer, so
      the truncation is integer division there. */
  function InitialRecovered(n: nat): (r0: nat)
    ensures r0 >= 1
    ensures n >= 1000 ==> r0 * 1000 <= n < (r0 + 1) * 1000
    ensures n < 1000 ==> r0 == 1
  {
    if n / 1000 < 1 then 1 else n / 1000
  }

  /** i_0: four infected nodes, one more when fewer than the recovered ones. */
  function InitialInfected(r0: nat): (i0: nat)
    ensures i0 == 4 || i0 == 5
    ensures i0 == 5 <==> r0 >= 5
  {
    if 4 < r0 then 5 else 4
  }

  /** The fifth infected seed appears exactly from 5000 nodes on. */
  lemma FifthInfectedFrom5000(n: nat)
    ensures InitialInfected(InitialRecovered(n)) == 5 <==> n >= 5000
  {
    if n >= 5000 {
      assert InitialRecovered(n) >= 5;
    } else if n >= 1000 {
      assert InitialRecovered(n) * 1000 <= n < 5000;
    }
  }

  /** The single increment does not keep up with r_0: from 6000 nodes on the
      infected sample is smaller than the recovered one. */
  lemma FewerInfectedThanRecovered(n: nat)
    ensures InitialInfected(InitialRecovered(n)) < InitialRecovered(n) <==> n >= 6000
  {
    if n >= 6000 {
      assert InitialRecovered(n) >= 6;
    } else if n >= 1000 {
      assert InitialRecovered(n) * 1000 <= n < 6000;
    }
  }

  /** self.s: an integer tally after the constructor, a bucket list after all_s_i_r. */
  datatype Susceptible = Tally(count: int) | Listing(nodes: seq<nat>)

  /** No node id occurs twice, as in every list random.sample returns. */
  predicate Distinct(xs: seq<nat>)
  {
    forall i, j :: 0 <= i < j < |xs| ==> xs[i] != xs[j]
  }

  /** The nodes a list holds. */
  function Elements(xs: seq<nat>): set<nat>
  {
    set v | v in xs
  }

  /** The network with its node labels, its tally or list of S nodes and the
      two spreading lists. */
  class Netw {
    const n: nat
    const net: Network
    var sir: seq<Label>
    var s: Susceptible
    var infected: seq<nat>
    var r: seq<nat>

    ghost predicate Valid()
      reads this
    {
      && net.Valid()
      && net.Size() == n
      && |sir| == n
      && InRange(infected, n)
      && InRange(r, n)
    }

    /** The labels and the two spreading lists, with the draw index t. */
    ghost function State(t: nat): World
      reads this
    {
      World(sir, infected, r, t)
    }

    /** Derives r_0 and i_0 from n, labels the infected sample I and then the
        recovered sample R, and sets s to the integer n - |infected| - |r|. */
    constructor (n: nat, net: Network, rSample: seq<nat>, infSample: seq<nat>)
      requires net.Valid() && net.Size() == n
      requires |rSample| == InitialRecovered(n) && |infSample| == InitialInfected(|rSample|)
      requires InRange(rSample, n) && InRange(infSample, n)
      ensures Valid() && this.n == n && this.net == net
      ensures r == rSample && infected == infSample
      ensures sir == Seeded(n, infSample, rSample)
      ensures s == Tally(n - |infSample| - |rSample|)
    {
      this.n := n;
      this.net := net;
      sir := AllSusceptible(n);
      s := Tally(0);
      r := rSample;
      infected := infSample;
      new;
      var k := 0;
      while k < |infected|
        invariant 0 <= k <= |infected| && infected == infSample && r == rSample
        invariant sir == Overwrite(AllSusceptible(n), infected[..k], I)
      {
        assert infected[..k + 1][..k] == infected[..k];
        sir := sir[infected[k] := I];
        k := k + 1;
      }
      assert infected[..k] == infected;
      ghost var afterI := sir;
      k := 0;
      while k < |r|
        invariant 0 <= k <= |r| && infected == infSample && r == rSample
        invariant sir == Overwrite(afterI, r[..k], R)
      {
        assert r[..k + 1][..k] == r[..k];
        sir := sir[r[k] := R];
        k := k + 1;
      }
      assert r[..k] == r;
      SeedingOrder(n, infected, r);
      s := Tally(n - |infected| - |r|);
    }

    /** s_to_i: every S neighbour of every node of the infected list gets one
        trial and turns I on success; the bucket lists are not touched. */
    method SToI(draws: nat -> real, t0: nat, p: real := 3.9) returns (t: nat)
      requires Valid()
      modifies this`sir
      ensures Valid()
      ensures Run(sir, t) == SpreadFrom(Infect, Run(old(sir), t0), infected, |infected|, p, net, draws)
    {
      t := t0;
      var k := 0;
      while k < |infected|
        invariant 0 <= k <= |infected| && |sir| == n
        invariant Run(sir, t) == SpreadFrom(Infect, Run(old(sir), t0), infected, k, p, net, draws)
      {
        var u := infected[k];
        var nbrs := net.adj[u];
        var w := p * net.clustering[u] * net.betweenness[u];
        ghost var before := Run(sir, t);
        var j := 0;
        while j < |nbrs|
          invariant 0 <= j <= |nbrs| && |sir| == n && w == net.Weight(p, u)
          invariant Run(sir, t) == VisitNeighbours(Infect, before, u, nbrs, j, p, net, draws)
        {
          var v := nbrs[j];
          if sir[v] == S {
            if draws(t) < w {
              sir := sir[v := I];
            }
            t := t + 1;
          }
          j := j + 1;
        }
        k := k + 1;
      }
    }

    /** s_i_to_r: every S or I neighbour of every node of the recovered list
        gets one trial and turns R on success; the bucket lists are not touched. */
    method SIToR(draws: nat -> real, t0: nat, p: real := 5.2) returns (t: nat)
      requires Valid()
      modifies this`sir
      ensures Valid()
      ensures Run(sir, t) == SpreadFrom(Recover, Run(old(sir), t0), r, |r|, p, net, draws)
    {
      t := t0;
      var k := 0;
      while k < |r|
        invariant 0 <= k <= |r| && |sir| == n
        invariant Run(sir, t) == SpreadFrom(Recover, Run(old(sir), t0), r, k, p, net, draws)
      {
        var u := r[k];
        var nbrs := net.adj[u];
        var w := p * net.clustering[u] * net.betweenness[u];
        ghost var before := Run(sir, t);
        var j := 0;
        while j < |nbrs|
          invariant 0 <= j <= |nbrs| && |sir| == n && w == net.Weight(p, u)
          invariant Run(sir, t) == VisitNeighbours(Recover, before, u, nbrs, j, p, net, draws)
        {
          var v := nbrs[j];
          if sir[v] == S {
            if draws(t) < w {
              sir := sir[v := R];
            }
            t := t + 1;
          } else if sir[v] == I {
            if draws(t) < w {
              sir := sir[v := R];
            }
            t := t + 1;
          }
          j := j + 1;
        }
        k := k + 1;
      }
    }

    /** all_s_i_r: replaces the tally by the S list and rebuilds the infected
        and recovered lists from the labels, in node order. */
    method AllSIR() returns (b: Buckets)
      requires Valid()
      modifies this`s, this`infected, this`r
      ensures Valid()
      ensures s == Listing(Indices(sir, S)) && infected == Indices(sir, I) && r == Indices(sir, R)
      ensures b == Buckets(s.nodes, infected, r)
    {
      var sList: seq<nat> := [];
      infected, r := [], [];
      var v := 0;
      while v < |sir|
        invariant 0 <= v <= |sir|
        invariant sList == Indices(sir[..v], S) && infected == Indices(sir[..v], I) && r == Indices(sir[..v], R)
      {
        assert sir[..v + 1][..v] == sir[..v];
        if sir[v] == S {
          sList := sList + [v];
        } else if sir[v] == I {
          infected := infected + [v];
        } else if sir[v] == R {
          r := r + [v];
        }
        v := v + 1;
      }
      assert sir[..v] == sir;
      IndicesInRange(sir, I);
      IndicesInRange(sir, R);
      s := Listing(sList);
      b := Buckets(sList, infected, r);
    }
  }

  /** The body of main's loop: s_to_i(3.9), s_i_to_r(5.2), all_s_i_r, and the
      three bucket lengths it appends. */
  method Step(netw: Netw, draws: nat -> real, t0: nat) returns (c: Counts, t: nat)
    requires netw.Valid()
    modifies netw`sir, netw`s, netw`infected, netw`r
    ensures netw.Valid()
    ensures netw.State(t) == Tick(old(netw.State(t0)), 3.9, 5.2, netw.net, draws)
    ensures netw.s == Listing(Indices(netw.sir, S))
    ensures c == Census(netw.sir)
  {
    t := netw.SToI(draws, t0, 3.9);
    t := netw.SIToR(draws, t, 5.2);
    var buckets := netw.AllSIR();
    c := Counts(|buckets.s|, |buckets.i|, |buckets.r|);
  }

  /** main's loop: 250 steps, recording the three bucket lengths after each. */
  method RecordSteps(netw: Netw, draws: nat -> real, t0: nat)
    returns (s: seq<nat>, infected: seq<nat>, r: seq<nat>, t: nat)
    requires netw.Valid()
    modifies netw`sir, netw`s, netw`infected, netw`r
    ensures netw.Valid()
    ensures |s| == Steps && |infected| == Steps && |r| == Steps
    ensures var h := History(old(netw.State(t0)), 3.9, 5.2, netw.net, draws, Steps);
      forall k :: 0 <= k < Steps ==> Counts(s[k], infected[k], r[k]) == h[k]
    ensures netw.State(t) == Evolve(old(netw.State(t0)), 3.9, 5.2, netw.net, draws, Steps)
    ensures netw.s == Listing(Indices(netw.sir, S))
  {
    ghost var w0 := netw.State(t0);
    ghost var h := History(w0, 3.9, 5.2, netw.net, draws, Steps);
    t := t0;
    s, infected, r := [], [], [];
    var step := 0;
    while step < Steps
      invariant 0 <= step <= Steps && netw.Valid()
      invariant |s| == step && Records(s, infected, r, h)
      invariant History(netw.State(t), 3.9, 5.2, netw.net, draws, Steps - step) == h[step..]
      invariant Evolve(netw.State(t), 3.9, 5.2, netw.net, draws, Steps - step) == Evolve(w0, 3.9, 5.2, netw.net, draws, Steps)
      invariant step > 0 ==> netw.s == Listing(Indices(netw.sir, S))
    {
      ghost var cur := netw.State(t);
      var c;
      c, t := Step(netw, draws, t);
      ghost var rest := History(netw.State(t), 3.9, 5.2, netw.net, draws, Steps - step - 1);
      assert History(cur, 3.9, 5.2, netw.net, draws, Steps - step) == [c] + rest;
      assert h[step] == h[step..][0] == c;
      assert h[step + 1..] == h[step..][1..] == rest;
      RecordsAppend(s, infected, r, h, c);
      s := s + [c.s];
      infected := infected + [c.i];
      r := r + [c.r];
      step := step + 1;
    }
  }

  /** main: a default network of 1000 nodes, 250 steps, and the three series
      it plots; every recorded triple adds up to the node count. */
  method MainSeries(net: Network, rSample: seq<nat>, infSample: seq<nat>, draws: nat -> real)
    returns (s: seq<nat>, infected: seq<nat>, r: seq<nat>)
    requires net.Valid() && net.Size() == DefaultNodes
    requires |rSample| == InitialRecovered(DefaultNodes) && |infSample| == InitialInfected(|rSample|)
    requires InRange(rSample, DefaultNodes) && InRange(infSample, DefaultNodes)
    ensures |s| == Steps && |infected| == Steps && |r| == Steps
    ensures forall k :: 0 <= k < Steps ==> s[k] + infected[k] + r[k] == DefaultNodes
    ensures var w0 := World(Seeded(DefaultNodes, infSample, rSample), infSample, rSample, 0);
      var h := History(w0, 3.9, 5.2, net, draws, Steps);
      forall k :: 0 <= k < Steps ==> Counts(s[k], infected[k], r[k]) == h[k]
  {
    var netw := new Netw(DefaultNodes, net, rSample, infSample);
    var t;
    s, infected, r, t := RecordSteps(netw, draws, 0);
    HistoryConserves(World(Seeded(DefaultNodes, infSample, rSample), infSample, rSample, 0), 3.9, 5.2, net, draws, Steps);
  }

  /** A duplicate-free list has as many entries as distinct elements. */
  lemma {:induction false} DistinctSize(xs: seq<nat>)
    requires Distinct(xs)
    ensures |Elements(xs)| == |xs|
    decreases |xs|
  {
    if xs != [] {
      var last := |xs| - 1;
      DistinctSize(xs[..last]);
      assert Elements(xs) == Elements(xs[..last]) + {xs[last]};
    }
  }

  /** The nodes carrying l in labels, as a set. */
  function Carrying(labels: seq<Label>, l: Label): set<nat>
  {
    set v: nat | v < |labels| && labels[v] == l
  }

  /** A bucket is as long as the set of nodes carrying its label. */
  lemma BucketSize(labels: seq<Label>, l: Label)
    ensures |Indices(labels, l)| == |Carrying(labels, l)|
  {
    IndicesExact(labels, l);
    DistinctSize(Indices(labels, l));
    assert Elements(Indices(labels, l)) == Carrying(labels, l);
  }

  /** The integer tally the constructor stores counts a node that is in both
      samples twice, so it falls short of the true number of S nodes by
      exactly the number of shared nodes; it is right only for disjoint samples. */
  lemma InitialTallyUndercount(n: nat, infSample: seq<nat>, rSample: seq<nat>)
    requires Distinct(infSample) && Distinct(rSample)
    requires InRange(infSample, n) && InRange(rSample, n)
    ensures var shared := Elements(infSample) * Elements(rSample);
      Census(Seeded(n, infSample, rSample)).s == n - |infSample| - |rSample| + |shared|
    ensures n - |infSample| - |rSample| <= Census(Seeded(n, infSample, rSample)).s
    ensures n - |infSample| - |rSample| == Census(Seeded(n, infSample, rSample)).s
      <==> Elements(infSample) !! Elements(rSample)
  {
    var labels := Seeded(n, infSample, rSample);
    var inf, rec := Elements(infSample), Elements(rSample);
    BucketSize(labels, I);
    BucketSize(labels, R);
    DistinctSize(infSample);
    DistinctSize(rSample);
    assert Carrying(labels, R) == rec;
    assert Carrying(labels, I) == inf - rec;
    assert inf == (inf - rec) + (inf * rec);
    assert (inf - rec) * (inf * rec) == {};
    assert |inf * rec| == 0 <==> inf !! rec by {
      if |inf * rec| == 0 {
        assert inf * rec == {};
      }
    }
  }
}
