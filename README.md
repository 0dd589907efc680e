# SIR label state machine of the CUFE modelling project, in Dafny

The project simulates the spread of a message over a WeChat-Moments-like
small-world contact network. Every node carries a label, S (susceptible),
I (infected) or R (recovered, "rational"). Two bucket lists, `infected` and
`r`, drive each step:

- `s_to_i` gives every S neighbour of every node of `infected` one trial; a
  success relabels it I.
- `s_i_to_r` gives every S or I neighbour of every node of `r` one trial; a
  success relabels it R.
- `all_s_i_r` rebuilds the buckets `s`, `infected` and `r` from the labels.

A trial from node `u` with coefficient `p` succeeds when `random.random()` is
below `p * clustering[u] * betweenness[u]`. The drivers run 250 such steps and
record the three bucket sizes after each one. The sweeps also record the peak
of the infected series for each coefficient.

The machine appears twice: as class `nsll_nw` in `nsll_mm.py`, with the drivers
`draw_sir_prop`, `draw_i_a` and `draw_i_b`, and as class `Netw` in `p03.py`, with
its `main` loop. `Netw` derives its seed counts from the node count and starts
with an integer susceptible tally instead of a list.

Files:

- `sir.dfy` (module `Sir`): the shared vocabulary.
  - Labels.
  - The network: adjacency lists over nodes `0..n-1`, clustering and betweenness.
  - The two passes as specification functions (`Visit`, `VisitNeighbours`,
    `SpreadFrom`). They consume the draw stream in loop order and see labels
    flipped earlier in the same pass.
  - The buckets (`Indices`) and the `Census` of their sizes.
  - The seeded labelling.
  - The step `Tick`, its iteration `Evolve`, and the recorded `History`.
- `sir_facts.dfy` (module `SirFacts`): what the passes and steps guarantee
  whatever the draws are.
  - Labels move only forward along S, I, R, and only on neighbours of the
    driving list.
  - Coefficient 0 changes nothing.
  - The S count never grows and the R count never shrinks.
  - Writing R after I is the seeded labelling.
- `nsll_mm.dfy` (module `NsllMm`): class `NsllNw`, whose fields are the labels
  and the three bucket lists, with imperative methods proved against the
  specification functions. It also holds the 250-step driver, `draw_sir_prop`,
  the peak, and the two sweeps.
- `p03.dfy` (module `P03`): the seed-count arithmetic of `Netw`, class `Netw`
  with the same methods, `main`'s record loop, and the facts about the initial
  integer tally.

Randomness is a parameter:

- `draws: nat -> real` is the sequence of values `random.random()` returns.
- Each pass threads a cursor `t` through it. A trial reads `draws(t)` and
  advances the cursor.
- A neighbour that is not eligible takes no draw, as in the source.
- The lists `random.sample` returns are inputs to the constructors.

The coefficient products are exact reals. Reading `draws` as values in [0, 1)
(`Uniform`) is needed only for the coefficient-0 facts.

In `p03.py`, `int(n * 0.001)` is integer division `n / 1000` for every n below
about 8.79 * 10^15. The double nearest to 0.001 lies slightly above it, so the
floating product never drops below the integer quotient. Below that bound the
rounded product also stays below the next integer.

`Netw.__init__` reseeds the generator with the same seed before each of its two
samples. Both samples therefore start from the same generator state. With
CPython's sampling algorithm the single recovered node is then the first
infected node, so the default network starts with 995 in its integer tally but
996 S nodes. `P03.InitialTallyUndercount` states the general rule: the tally
falls short by exactly the number of nodes the samples share. The model itself
takes the samples as inputs and does not assume the overlap.

## Model

| member | source | states |
|---|---|---|
| Sir.Visit | nsll_mm.py:86-90 | one neighbour visit: an eligible neighbour takes exactly one draw and gets the target label when that draw is below p * clustering[u] * betweenness[u]; an ineligible one takes no draw; the label sequence keeps its length |
| Sir.VisitNeighbours | nsll_mm.py:85-90 | the first j iterations of the inner loop: the visits to adj[u][0..j) in order, each seeing the labels the earlier ones left; the label sequence keeps its length |
| Sir.SpreadFrom | nsll_mm.py:84-107 | the first k iterations of a pass: every node of bucket[0..k) in order visits all its neighbours; the bucket list is the one the pass started with; the label sequence keeps its length |
| Sir.Indices | nsll_mm.py:113-122 | the rebuilt bucket of a label, appended in node order; it is never longer than the label sequence |
| Sir.Overwrite | nsll_mm.py:74-78 | writing one label over a list of nodes in order, later writes winning; the label sequence keeps its length |
| Sir.Seeded | nsll_mm.py:74-78 | the labelling after seeding: R on recovered nodes, I on the other infected nodes, S elsewhere, one label per node |
| Sir.Tick | nsll_mm.py:298-300 | one step: the infection pass over the infected list, then the recovery pass over the recovered list, then the two lists rebuilt from the labels; the result again fits the network |
| Sir.Evolve | nsll_mm.py:297-300 | the state after k steps, one Tick after another; it fits the network |
| Sir.History | nsll_mm.py:297-303 | the triples the loop appends: the census after the first step, then those of the remaining steps; one triple per step |
| Sir.IndicesExact | nsll_mm.py:109-124 | a rebuilt bucket holds exactly the nodes carrying its label, each once, in increasing node order |
| Sir.BucketsPartition | nsll_mm.py:109-124 | the sizes of the S, I and R buckets add up to the number of nodes |
| Sir.Census | nsll_mm.py:300-303 | the recorded triple of bucket lengths always sums to the node count |
| Sir.HistoryAt | nsll_mm.py:297-303 | entry k of the recorded series is the census after k + 1 steps |
| Sir.HistoryConserves | nsll_mm.py:297-303 | every recorded triple of a run sums to the node count |
| SirFacts.VisitNeighboursMoves | nsll_mm.py:85-90 | after any number of its iterations the inner neighbour loop has given only eligible neighbours the target label, only neighbours it visited, and has never rewound the draw stream |
| SirFacts.SpreadFromMoves | nsll_mm.py:84-107 | any prefix of a pass, and so the whole pass, moves only eligible labels to its target label (S to I, or S/I to R), only on neighbours of the bucket nodes it has processed |
| SirFacts.VisitNeighboursZero | nsll_mm.py:87-90 | with coefficient 0 no draw of [0, 1) succeeds, so the neighbour loop changes no label |
| SirFacts.SpreadFromZero | nsll_mm.py:99-107 | with coefficient 0 a whole pass changes no label |
| SirFacts.TickMoves | nsll_mm.py:298-300 | across one step labels only advance along S, I, R; a new I was S and neighbours the infected list; a new R neighbours the recovered list |
| SirFacts.EvolveAdvances | nsll_mm.py:297-300 | over any number of steps from a state no label moves backwards along S, I, R |
| SirFacts.EvolveMonotone | nsll_mm.py:297-300 | the labels after k steps are at or past those after any j <= k steps |
| SirFacts.CountMonotone | nsll_mm.py:113-122 | if every node labelled l afterwards was labelled l before, the bucket of l did not grow |
| SirFacts.CountsMonotone | nsll_mm.py:297-303 | the recorded S count never grows and the recorded R count never shrinks from one step to a later one |
| SirFacts.FrozenWithoutCoefficients | nsll_mm.py:297-303 | with both coefficients 0 the labels, and so every recorded triple, stay as seeded |
| SirFacts.OverwriteAt | nsll_mm.py:74-78 | after writing l over a list of nodes, a node carries l exactly when it is in the list, and keeps its label otherwise |
| SirFacts.SeedingOrder | nsll_mm.py:74-78 | writing I over the infected sample and then R over the recovered sample yields R on recovered nodes, I on the other infected nodes and S elsewhere |
| NsllMm.NsllNw.constructor | nsll_mm.py:62-78 | the labels are the seeded labelling, s is empty, and the two samples become the infected and recovered lists |
| NsllMm.NsllNw.SToI | nsll_mm.py:80-90 | the labels and draw cursor after the nested loops are those of the infection pass over the infected list; only the labels change |
| NsllMm.NsllNw.SIToR | nsll_mm.py:92-107 | the labels and draw cursor after the nested loops are those of the recovery pass over the recovered list; only the labels change |
| NsllMm.NsllNw.AllSIR | nsll_mm.py:109-124 | the three lists become the buckets of S, I and R of the current labels, and are what it returns; labels are untouched |
| NsllMm.Step | nsll_mm.py:298-303 | one loop body advances the labels, lists and draw cursor by exactly one step, leaves s as the S bucket of the new labels, and yields that step's census |
| NsllMm.RunSteps | nsll_mm.py:297-303 | the loop records 250 triples, entry k equal to the census after k + 1 steps, and leaves the state after 250 steps with s the S bucket of the final labels |
| NsllMm.DrawSirProp | nsll_mm.py:288-303 | a fresh default network run for 250 steps yields three series of length 250 whose triples are the recorded history and each sum to the node count |
| NsllMm.Peak | nsll_mm.py:357 | the maximum of a non-empty series is one of its entries and at least every entry |
| NsllMm.PeakInfected | nsll_mm.py:342-357 | one sweep point returns the peak of the infected series of a fresh 250-step run |
| NsllMm.Sweep | nsll_mm.py:340-357 | the i_max list after k sweep points: the peak of each run, appended in order; it holds k entries |
| NsllMm.SweepAt | nsll_mm.py:340-357 | entry i of the sweep is the peak of the run made with the i-th coefficients |
| NsllMm.SweepPeakIsMax | nsll_mm.py:357 | entry i of the sweep is one of that run's infected counts and at least every one of them |
| NsllMm.SweepPeaks | nsll_mm.py:340-357 | the sweep loop appends, in order, the peak of each run |
| NsllMm.DrawIA | nsll_mm.py:334-357 | draw_i_a's peaks are the sweep with the given infection coefficients and recovery coefficient 5.2 |
| NsllMm.DrawIB | nsll_mm.py:385-407 | draw_i_b's peaks are the sweep with infection coefficient 3.9 and the given recovery coefficients |
| P03.InitialRecovered | p03.py:35-38 | r_0 is at least 1, is the number of whole thousands in n from 1000 nodes on, and is 1 below that |
| P03.InitialInfected | p03.py:42-44 | i_0 is 4 or 5, and it is 5 exactly when r_0 is at least 5 |
| P03.FifthInfectedFrom5000 | p03.py:35-44 | the derived i_0 is 5 exactly from 5000 nodes on, and 4 below that |
| P03.FewerInfectedThanRecovered | p03.py:42-44 | the single increment leaves fewer infected than recovered seeds exactly from 6000 nodes on |
| P03.Netw.constructor | p03.py:27-51 | with samples of sizes r_0 and i_0, the labels are the seeded labelling and s is the integer n - len(infected) - len(r) |
| P03.InitialTallyUndercount | p03.py:47-51 | for duplicate-free samples the true S count is the tally plus the number of nodes in both samples; the tally is never above it and equals it exactly when the samples are disjoint |
| P03.Netw.SToI | p03.py:55-64 | the labels and draw cursor after the nested loops are those of the infection pass over the infected list; only the labels change |
| P03.Netw.SIToR | p03.py:66-78 | the labels and draw cursor after the nested loops are those of the recovery pass over the recovered list; only the labels change |
| P03.Netw.AllSIR | p03.py:80-91 | s becomes the list of S nodes, replacing the tally; infected and r become the I and R buckets; all three are returned |
| P03.Step | p03.py:129-134 | one loop body of main advances the labels, lists and draw cursor by one step with coefficients 3.9 and 5.2, replaces s by the list of S nodes, and yields that step's census |
| P03.RecordSteps | p03.py:128-134 | main's loop records 250 triples, entry k equal to the census after k + 1 steps, and leaves the state after 250 steps with s the list of S nodes of the final labels |
| P03.MainSeries | p03.py:94-134 | main on the default 1000-node network records 250 triples, each the recorded history and each summing to 1000 |

## Left out

- Graph construction and metrics (`nx.watts_strogatz_graph`, `nx.clustering`,
  `nx.betweenness_centrality`, `nx.average_shortest_path_length`): foreign
  library code. The `Network` value is an input. It is assumed only to list
  node ids below n and to carry one metric pair per node. Symmetry and the
  absence of self-loops are not needed by any property proved here.
- `random.sample`, `random.seed`, `random.random`: the samples and the stream of
  draws are inputs. The sweeps give every run its own stream
  (`Replicate.draws`). This covers any way the single generator is shared
  between runs. Sampling consumes generator state between runs; that is not
  modelled.
- Floating point: the threshold `p * clustering[u] * betweenness[u]` and its
  comparison are exact real arithmetic, with no rounding and no clamping.
- `np.linspace` values of the sweeps are inputs (`alphas`, `betas`). `np.polyfit`
  and `np.poly1d` are left out (floating-point fitting).
- Plotting and output: `draw_ws_network`, every `py.plot` figure, the `print`
  calls, `nx.spring_layout`, and the `__main__` entry points.
- `find_p`, `p01.py` and `p02.py`: path-length averaging and drawing.
- The `s` series and the `r` series of the sweeps are computed but never read
  by the source after the loop. The model still records them, as the loop does.
- NsllMm.NsllNw.constructor: samples of any size are accepted. The default
  sizes 1 and 4 are imposed by the drivers (`Sampled`), because the drivers are
  the only callers.
- P03.Netw.constructor: `random.sample` raising `ValueError` when n is below
  the sample size is not modelled. The samples arrive as inputs of the right
  sizes.
- P03.InitialRecovered: models `int(n * 0.001)` as `n / 1000`. From about
  8.79 * 10^15 nodes on, the floating product can round up to the next integer,
  which makes r_0 one larger. That case is not modelled. To reach it, the
  constructor would first have to build and measure a graph of that many nodes
  (`p03.py` lines 31-34).
