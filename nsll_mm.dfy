/** The simulation class of nsll_mm.py and the drivers that run it for 250 steps
    and take the peak of the infected series. */
module NsllMm {
  import opened Sir
  import opened SirFacts

  /** Default sample sizes of the constructor: i_0 infected and r_0 recovered nodes. */
  const DefaultI0: nat := 4
  const DefaultR0: nat := 1

  /** The network with its node labels and the three bucket lists. */
  class NsllNw {
    const net: Network
    var sir: seq<Label>
    var s: seq<nat>
    var infected: seq<nat>
    var r: seq<nat>

    ghost predicate Valid()
      reads this
    {
      && net.Valid()
      && |sir| == net.Size()
      && InRange(s, net.Size())
      && InRange(infected, net.Size())
      && InRange(r, net.Size())
    }

    /** The labels and the two spreading lists, with the draw index t. */
    ghost function State(t: nat): World
      reads this
    {
      World(sir, infected, r, t)
    }

    /** Labels every node S, then the infected sample I, then the recovered
        sample R (rSample is drawn first, infSample second). */
    constructor (net: Network, rSample: seq<nat>, infSample: seq<nat>)
      requires net.Valid() && InRange(rSample, net.Size()) && InRange(infSample, net.Size())
      ensures Valid() && this.net == net
      ensures s == [] && r == rSample && infected == infSample
      ensures sir == Seeded(net.Size(), infSample, rSample)
    {
      this.net := net;
      sir := AllSusceptible(net.Size());
      s := [];
      r := rSample;
      infected := infSample;
      new;
      var k := 0;
      while k < |infected|
        invariant 0 <= k <= |infected| && infected == infSample && r == rSample && s == []
        invariant sir == Overwrite(AllSusceptible(net.Size()), infected[..k], I)
      {
        assert infected[..k + 1][..k] == infected[..k];
        sir := sir[infected[k] := I];
        k := k + 1;
      }
      assert infected[..k] == infected;
      ghost var afterI := sir;
      k := 0;
      while k < |r|
        invariant 0 <= k <= |r| && infected == infSample && r == rSample && s == []
        invariant sir == Overwrite(afterI, r[..k], R)
      {
        assert r[..k + 1][..k] == r[..k];
        sir := sir[r[k] := R];
        k := k + 1;
      }
      assert r[..k] == r;
      SeedingOrder(net.Size(), infected, r);
    }

    /** s_to_i: every S neighbour of every node of the infected list gets one
        trial and turns I on success; the bucket lists are not touched. */
    method SToI(draws: nat -> real, t0: nat, p: real := 3.9) returns (t: nat)
      requires Valid()
      modifies this`sir
      ensures Valid()
      ensures Run(sir, t) == SpreadFrom(Infect, Run(old(sir), t0), infected, |infected|, p, net, draws)
    {
      t := t0;
      var k := 0;
      while k < |infected|
        invariant 0 <= k <= |infected| && |sir| == net.Size()
        invariant Run(sir, t) == SpreadFrom(Infect, Run(old(sir), t0), infected, k, p, net, draws)
      {
        var n := infected[k];
        var nbrs := net.adj[n];
        var w := p * net.clustering[n] * net.betweenness[n];
        ghost var before := Run(sir, t);
        var j := 0;
        while j < |nbrs|
          invariant 0 <= j <= |nbrs| && |sir| == net.Size() && w == net.Weight(p, n)
          invariant Run(sir, t) == VisitNeighbours(Infect, before, n, nbrs, j, p, net, draws)
        {
          var n2 := nbrs[j];
          if sir[n2] == S {
            if draws(t) < w {
              sir := sir[n2 := I];
            }
            t := t + 1;
          }
          j := j + 1;
        }
        k := k + 1;
      }
    }

    /** s_i_to_r: every S or I neighbour of every node of the recovered list
        gets one trial and turns R on success; the bucket lists are not touched. */
    method SIToR(draws: nat -> real, t0: nat, p: real := 5.2) returns (t: nat)
      requires Valid()
      modifies this`sir
      ensures Valid()
      ensures Run(sir, t) == SpreadFrom(Recover, Run(old(sir), t0), r, |r|, p, net, draws)
    {
      t := t0;
      var k := 0;
      while k < |r|
        invariant 0 <= k <= |r| && |sir| == net.Size()
        invariant Run(sir, t) == SpreadFrom(Recover, Run(old(sir), t0), r, k, p, net, draws)
      {
        var n := r[k];
        var nbrs := net.adj[n];
        var w := p * net.clustering[n] * net.betweenness[n];
        ghost var before := Run(sir, t);
        var j := 0;
        while j < |nbrs|
          invariant 0 <= j <= |nbrs| && |sir| == net.Size() && w == net.Weight(p, n)
          invariant Run(sir, t) == VisitNeighbours(Recover, before, n, nbrs, j, p, net, draws)
        {
          var n2 := nbrs[j];
          if sir[n2] == S {
            if draws(t) < w {
              sir := sir[n2 := R];
            }
            t := t + 1;
          } else if sir[n2] == I {
            if draws(t) < w {
              sir := sir[n2 := R];
            }
            t := t + 1;
          }
          j := j + 1;
        }
        k := k + 1;
      }
    }

    /** all_s_i_r: rebuilds the three bucket lists from the labels, in node order. */
    method AllSIR() returns (b: Buckets)
      requires Valid()
      modifies this`s, this`infected, this`r
      ensures Valid()
      ensures s == Indices(sir, S) && infected == Indices(sir, I) && r == Indices(sir, R)
      ensures b == Buckets(s, infected, r)
    {
      s, infected, r := [], [], [];
      var n := 0;
      while n < |sir|
        invariant 0 <= n <= |sir|
        invariant s == Indices(sir[..n], S) && infected == Indices(sir[..n], I) && r == Indices(sir[..n], R)
      {
        assert sir[..n + 1][..n] == sir[..n];
        if sir[n] == S {
          s := s + [n];
        } else if sir[n] == I {
          infected := infected + [n];
        } else if sir[n] == R {
          r := r + [n];
        }
        n := n + 1;
      }
      assert sir[..n] == sir;
      IndicesInRange(sir, S);
      IndicesInRange(sir, I);
      IndicesInRange(sir, R);
      b := Buckets(s, infected, r);
    }
  }

  /** One pass of the driver loops' body: s_to_i(a), s_i_to_r(b), all_s_i_r,
      and the three bucket lengths the drivers record. */
  method Step(nsll: NsllNw, a: real, b: real, draws: nat -> real, t0: nat) returns (c: Counts, t: nat)
    requires nsll.Valid()
    modifies nsll`sir, nsll`s, nsll`infected, nsll`r
    ensures nsll.Valid()
    ensures nsll.State(t) == Tick(old(nsll.State(t0)), a, b, nsll.net, draws)
    ensures nsll.s == Indices(nsll.sir, S)
    ensures c == Census(nsll.sir)
  {
    t := nsll.SToI(draws, t0, a);
    t := nsll.SIToR(draws, t, b);
    var buckets := nsll.AllSIR();
    c := Counts(|buckets.s|, |buckets.i|, |buckets.r|);
  }

  /** The driver loop: 250 times s_to_i(a), s_i_to_r(b), all_s_i_r, recording
      the three bucket lengths after each step. */
  method RunSteps(nsll: NsllNw, a: real, b: real, draws: nat -> real, t0: nat)
    returns (s: seq<nat>, infected: seq<nat>, r: seq<nat>, t: nat)
    requires nsll.Valid()
    modifies nsll`sir, nsll`s, nsll`infected, nsll`r
    ensures nsll.Valid()
    ensures |s| == Steps && |infected| == Steps && |r| == Steps
    ensures var h := History(old(nsll.State(t0)), a, b, nsll.net, draws, Steps);
      forall k :: 0 <= k < Steps ==> Counts(s[k], infected[k], r[k]) == h[k]
    ensures nsll.State(t) == Evolve(old(nsll.State(t0)), a, b, nsll.net, draws, Steps)
    ensures nsll.s == Indices(nsll.sir, S)
  {
    ghost var w0 := nsll.State(t0);
    ghost var h := History(w0, a, b, nsll.net, draws, Steps);
    t := t0;
    s, infected, r := [], [], [];
    var step := 0;
    while step < Steps
      invariant 0 <= step <= Steps && nsll.Valid()
      invariant |s| == step && Records(s, infected, r, h)
      invariant History(nsll.State(t), a, b, nsll.net, draws, Steps - step) == h[step..]
      invariant Evolve(nsll.State(t), a, b, nsll.net, draws, Steps - step) == Evolve(w0, a, b, nsll.net, draws, Steps)
      invariant step > 0 ==> nsll.s == Indices(nsll.sir, S)
    {
      ghost var cur := nsll.State(t);
      var c;
      c, t := Step(nsll, a, b, draws, t);
      ghost var rest := History(nsll.State(t), a, b, nsll.net, draws, Steps - step - 1);
      assert History(cur, a, b, nsll.net, draws, Steps - step) == [c] + rest;
      assert h[step] == h[step..][0] == c;
      assert h[step + 1..] == h[step..][1..] == rest;
      RecordsAppend(s, infected, r, h, c);
      s := s + [c.s];
      infected := infected + [c.i];
      r := r + [c.r];
      step := step + 1;
    }
  }

  /** The peak of a non-empty series: at least every entry and equal to one of them. */
  function Peak(xs: seq<nat>): (m: nat)
    requires |xs| > 0
    ensures m in xs
    ensures forall x :: x in xs ==> x <= m
    decreases |xs|
  {
    if |xs| == 1 then xs[0]
    else
      var rest := Peak(xs[1..]);
      assert xs == [xs[0]] + xs[1..];
      if xs[0] > rest then xs[0] else rest
  }

  /** The random material of one run: the two samples and the draw stream. */
  datatype Replicate = Replicate(r: seq<nat>, infected: seq<nat>, draws: nat -> real)

  /** The samples are of the default sizes and hold nodes of the network. */
  predicate Sampled(net: Network, run: Replicate)
  {
    && |run.r| == DefaultR0 && |run.infected| == DefaultI0
    && InRange(run.r, net.Size()) && InRange(run.infected, net.Size())
  }

  /** The state a freshly constructed network starts the drivers from. */
  function Start(net: Network, run: Replicate): (w: World)
    requires Sampled(net, run)
    ensures Fits(w, net)
  {
    World(Seeded(net.Size(), run.infected, run.r), run.infected, run.r, 0)
  }

  /** draw_sir_prop: one run of 250 steps with coefficients a and b on a fresh
      default network; returns the three series it plots. */
  method DrawSirProp(net: Network, run: Replicate, a: real := 3.9, b: real := 5.2)
    returns (s: seq<nat>, infected: seq<nat>, r: seq<nat>)
    requires net.Valid() && Sampled(net, run)
    ensures |s| == Steps && |infected| == Steps && |r| == Steps
    ensures forall k :: 0 <= k < Steps ==> s[k] + infected[k] + r[k] == net.Size()
    ensures var h := History(Start(net, run), a, b, net, run.draws, Steps);
      forall k :: 0 <= k < Steps ==> Counts(s[k], infected[k], r[k]) == h[k]
  {
    var nsll := new NsllNw(net, run.r, run.infected);
    var t;
    s, infected, r, t := RunSteps(nsll, a, b, run.draws, 0);
    HistoryConserves(Start(net, run), a, b, net, run.draws, Steps);
  }

  /** The infected series of a fresh run of 250 steps. */
  function InfectedRun(net: Network, run: Replicate, a: real, b: real): (xs: seq<nat>)
    requires net.Valid() && Sampled(net, run)
    ensures |xs| == Steps
  {
    InfectedSeries(History(Start(net, run), a, b, net, run.draws, Steps))
  }

  /** The peak of the infected series of a fresh run of 250 steps. */
  function PeakOf(net: Network, run: Replicate, a: real, b: real): nat
    requires net.Valid() && Sampled(net, run)
  {
    Peak(InfectedRun(net, run, a, b))
  }

  /** One sweep point: a fresh network, 250 steps, and the peak of the I series. */
  method PeakInfected(net: Network, run: Replicate, a: real, b: real) returns (peak: nat)
    requires net.Valid() && Sampled(net, run)
    ensures peak == PeakOf(net, run, a, b)
  {
    var nsll := new NsllNw(net, run.r, run.infected);
    var s, infected, r, t := RunSteps(nsll, a, b, run.draws, 0);
    assert infected == InfectedRun(net, run, a, b);
    peak := Peak(infected);
  }

  /** The samples of every run of a sweep are of the default sizes. */
  predicate AllSampled(net: Network, runs: seq<Replicate>)
  {
    forall k :: 0 <= k < |runs| ==> Sampled(net, runs[k])
  }

  /** The peaks of the first k points of a sweep: entry i is the peak infected
      count of a fresh run with infection coefficient alphas[i] and recovery
      coefficient betas[i]. */
  function Sweep(net: Network, alphas: seq<real>, betas: seq<real>, runs: seq<Replicate>, k: nat): (peaks: seq<nat>)
    requires net.Valid() && |alphas| == |runs| && |betas| == |runs| && AllSampled(net, runs) && k <= |runs|
    ensures |peaks| == k
  {
    if k == 0 then []
    else Sweep(net, alphas, betas, runs, k - 1) + [PeakOf(net, runs[k - 1], alphas[k - 1], betas[k - 1])]
  }

  /** Entry i of a sweep is the peak of the run at sweep point i. */
  lemma {:induction false} SweepAt(net: Network, alphas: seq<real>, betas: seq<real>, runs: seq<Replicate>, k: nat, i: nat)
    requires net.Valid() && |alphas| == |runs| && |betas| == |runs| && AllSampled(net, runs) && k <= |runs|
    requires i < k
    ensures Sweep(net, alphas, betas, runs, k)[i] == PeakOf(net, runs[i], alphas[i], betas[i])
  {
    var prev := Sweep(net, alphas, betas, runs, k - 1);
    assert Sweep(net, alphas, betas, runs, k) == prev + [PeakOf(net, runs[k - 1], alphas[k - 1], betas[k - 1])];
    if i < k - 1 {
      SweepAt(net, alphas, betas, runs, k - 1, i);
    }
  }

  /** Entry i of a sweep is the largest infected count of the run at sweep
      point i and is one of its entries. */
  lemma SweepPeakIsMax(net: Network, alphas: seq<real>, betas: seq<real>, runs: seq<Replicate>, i: nat)
    requires net.Valid() && |alphas| == |runs| && |betas| == |runs| && AllSampled(net, runs)
    requires i < |runs|
    ensures var series := InfectedRun(net, runs[i], alphas[i], betas[i]);
      && Sweep(net, alphas, betas, runs, |runs|)[i] in series
      && forall x :: x in series ==> x <= Sweep(net, alphas, betas, runs, |runs|)[i]
  {
    SweepAt(net, alphas, betas, runs, |runs|, i);
  }

  /** The sweep over coefficient pairs, run by run in order. */
  method SweepPeaks(net: Network, alphas: seq<real>, betas: seq<real>, runs: seq<Replicate>) returns (iMax: seq<nat>)
    requires net.Valid() && |alphas| == |runs| && |betas| == |runs| && AllSampled(net, runs)
    ensures iMax == Sweep(net, alphas, betas, runs, |runs|)
  {
    iMax := [];
    var k := 0;
    while k < |runs|
      invariant 0 <= k <= |runs|
      invariant iMax == Sweep(net, alphas, betas, runs, k)
    {
      var peak := PeakInfected(net, runs[k], alphas[k], betas[k]);
      iMax := iMax + [peak];
      k := k + 1;
    }
  }

  /** n copies of one coefficient. */
  function Repeat(n: nat, c: real): seq<real>
  {
    seq(n, _ => c)
  }

  /** draw_i_a: for every infection coefficient, the peak infected count of a
      fresh run with recovery coefficient 5.2. */
  method DrawIA(net: Network, alphas: seq<real>, runs: seq<Replicate>) returns (iMax: seq<nat>)
    requires net.Valid() && |runs| == |alphas| && AllSampled(net, runs)
    ensures iMax == Sweep(net, alphas, Repeat(|alphas|, 5.2), runs, |runs|)
  {
    iMax := SweepPeaks(net, alphas, Repeat(|alphas|, 5.2), runs);
  }

  /** draw_i_b: for every recovery coefficient, the peak infected count of a
      fresh run with infection coefficient 3.9. */
  method DrawIB(net: Network, betas: seq<real>, runs: seq<Replicate>) returns (iMax: seq<nat>)
    requires net.Valid() && |runs| == |betas| && AllSampled(net, runs)
    ensures iMax == Sweep(net, Repeat(|betas|, 3.9), betas, runs, |runs|)
  {
    iMax := SweepPeaks(net, Repeat(|betas|, 3.9), betas, runs);
  }
}
