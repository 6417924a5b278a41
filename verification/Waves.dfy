/** The wave planner: a capped Kahn loop over the open tickets, and what its waves mean in terms of
    chains of open blockers. */
module Waves {
  import opened Basics
  import opened TicketGraph

  /** The loop stops once it holds more than 80 waves. */
  const WAVE_LIMIT := 81

  ghost function Union(waves: seq<set<Ticket>>): set<Ticket> {
    set i, w | 0 <= i < |waves| && w in waves[i] :: w
  }

  /** The unplaced open tickets whose open blockers are all placed. */
  ghost function Ready(b: Board, placed: set<Ticket>): set<Ticket> {
    set w | w in b.open && w !in placed && b.Blockers(w) <= placed
  }

  /** Each wave is not empty and is what is ready once the earlier ones are done. */
  ghost predicate ReadyWaves(b: Board, waves: seq<set<Ticket>>) {
    forall i :: 0 <= i < |waves| ==> waves[i] != {} && waves[i] == Ready(b, Union(waves[..i]))
  }

  /** What the planner returns: ready waves until nothing is ready or the limit is reached. */
  ghost predicate WavePlan(b: Board, waves: seq<set<Ticket>>, stuck: set<Ticket>) {
    && ReadyWaves(b, waves)
    && |waves| <= WAVE_LIMIT
    && (|waves| < WAVE_LIMIT ==> Ready(b, Union(waves)) == {})
    && stuck == b.open - Union(waves)
  }

  /** What is left of each open ticket's open blockers. */
  ghost predicate RemainingOk(b: Board, remaining: Adjacency, placed: set<Ticket>) {
    remaining.Keys == b.open && forall w :: w in b.open ==> remaining[w] == b.Blockers(w) - placed
  }

  lemma NextWave(b: Board, waves: seq<set<Ticket>>, wave: set<Ticket>)
    requires ReadyWaves(b, waves) && wave != {} && wave == Ready(b, Union(waves))
    ensures ReadyWaves(b, waves + [wave]) && Union(waves + [wave]) == Union(waves) + wave
  {
    UnionAppend(waves, wave);
    assert waves[..|waves|] == waves;
  }

  method ComputeWaves(b: Board) returns (waves: seq<set<Ticket>>, stuck: set<Ticket>)
    requires b.Valid()
    ensures WavePlan(b, waves, stuck)
  {
    var remaining := map w | w in b.open :: b.Blockers(w);
    waves := [];
    var placed: set<Ticket> := {};
    while true
      invariant ReadyWaves(b, waves) && |waves| < WAVE_LIMIT && placed == Union(waves)
      invariant RemainingOk(b, remaining, placed)
      decreases WAVE_LIMIT - |waves|
    {
      var ready := set w | w in b.open && w !in placed && remaining[w] == {};
      assert ready == Ready(b, placed);
      if ready == {} {
        break;
      }
      NextWave(b, waves, ready);
      waves := waves + [ready];
      remaining := Discharge(b, remaining, placed, ready);
      placed := placed + ready;
      if |waves| > 80 {
        break;
      }
    }
    stuck := b.open - placed;
  }

  /** The inner loops of a wave: strike every placed ticket from its children's remaining blockers. */
  method Discharge(b: Board, remaining: Adjacency, ghost placed: set<Ticket>, ready: set<Ticket>) returns (after: Adjacency)
    requires b.Valid() && RemainingOk(b, remaining, placed)
    ensures RemainingOk(b, after, placed + ready)
  {
    after := remaining;
    var todo := ready;
    while todo != {}
      invariant todo <= ready && RemainingOk(b, after, placed + (ready - todo))
    {
      var w :| w in todo;
      after := Strike(b, after, w);
      todo := todo - {w};
    }
  }

  /** Strike one placed ticket from the remaining blockers of its children. */
  method Strike(b: Board, remaining: Adjacency, w: Ticket) returns (after: Adjacency)
    requires b.Valid() && remaining.Keys == b.open && forall x :: x in b.open ==> remaining[x] <= b.Blockers(x)
    ensures after.Keys == b.open && forall x :: x in b.open ==> after[x] == remaining[x] - {w}
  {
    after := remaining;
    var children := Get(b.blocks, w);
    while children != {}
      invariant children <= Get(b.blocks, w) && after.Keys == b.open
      invariant forall x :: x in b.open ==>
                              after[x] == remaining[x] - if x in Get(b.blocks, w) - children then {w} else {}
    {
      var child :| child in children;
      if child in after {
        after := after[child := after[child] - {w}];
      }
      children := children - {child};
    }
    assert forall x :: x in b.open && w in remaining[x] ==> x in Get(b.blocks, w);
  }

  lemma UnionAppend(waves: seq<set<Ticket>>, wave: set<Ticket>)
    ensures Union(waves + [wave]) == Union(waves) + wave
    ensures forall i :: 0 <= i <= |waves| ==> (waves + [wave])[..i] == waves[..i]
  {
    var longer := waves + [wave];
    assert longer[|waves|] == wave;
    forall w | w in Union(waves)
      ensures w in Union(longer)
    {
      var i :| 0 <= i < |waves| && w in waves[i];
      assert w in longer[i];
    }
  }

  // ---------------------------------------------------------------------------------------------
  // Waves are the ranks of the graph
  // ---------------------------------------------------------------------------------------------

  lemma UnionStep(waves: seq<set<Ticket>>, i: nat)
    requires i < |waves|
    ensures Union(waves[..i + 1]) == Union(waves[..i]) + waves[i]
  {
    assert waves[..i + 1] == waves[..i] + [waves[i]];
    UnionAppend(waves[..i], waves[i]);
  }

  lemma InUnion(waves: seq<set<Ticket>>, n: nat, w: Ticket) returns (i: nat)
    requires n <= |waves| && w in Union(waves[..n])
    ensures i < n && w in waves[i]
  {
    var k :| 0 <= k < n && w in waves[..n][k];
    i := k;
  }

  lemma WavesDisjoint(b: Board, waves: seq<set<Ticket>>, stuck: set<Ticket>, i: nat, j: nat)
    requires WavePlan(b, waves, stuck) && i < j < |waves|
    ensures waves[i] !! waves[j]
  {
    forall w | w in waves[i]
      ensures w !in waves[j]
    {
      assert w in waves[..j][i];
    }
  }

  /** Waves and stuck tickets partition the open tickets, and every open blocker of a placed ticket
      sits in a strictly earlier wave. */
  lemma PlanPartitions(b: Board, waves: seq<set<Ticket>>, stuck: set<Ticket>)
    requires WavePlan(b, waves, stuck)
    ensures Union(waves) + stuck == b.open && Union(waves) !! stuck
    ensures forall i, j :: 0 <= i < j < |waves| ==> waves[i] !! waves[j]
    ensures forall i, w, x :: 0 <= i < |waves| && w in waves[i] && x in b.Blockers(w) ==>
                                exists j :: 0 <= j < i && x in waves[j]
  {
    forall i, j | 0 <= i < j < |waves|
      ensures waves[i] !! waves[j]
    {
      WavesDisjoint(b, waves, stuck, i, j);
    }
    forall i, w, x | 0 <= i < |waves| && w in waves[i] && x in b.Blockers(w)
      ensures exists j :: 0 <= j < i && x in waves[j]
    {
      var j := InUnion(waves, i, x);
    }
  }

  /** A ticket still unplaced after `i` waves has an open blocker that was unplaced before the last of them. */
  lemma UnplacedBlocker(b: Board, waves: seq<set<Ticket>>, i: nat, w: Ticket) returns (x: Ticket)
    requires ReadyWaves(b, waves) && 0 < i <= |waves| && w in b.open && w !in Union(waves[..i])
    ensures x in b.Blockers(w) && x in b.open && x !in Union(waves[..i - 1])
  {
    UnionStep(waves, i - 1);
    assert w !in Ready(b, Union(waves[..i - 1]));
    x :| x in b.Blockers(w) && x !in Union(waves[..i - 1]);
  }

  lemma OneMore(b: Board, d: seq<Ticket>, w: Ticket)
    requires Chain(b, d) && w in b.open && d[|d| - 1] in b.Blockers(w)
    ensures ChainTo(b, d + [w], w)
  {
    JoinChains(b, d, [w]);
  }

  /** A ticket still unplaced after `i` waves ends a chain of `i + 1` tickets. */
  lemma {:induction false} UnplacedHasChain(b: Board, waves: seq<set<Ticket>>, i: nat, w: Ticket) returns (c: seq<Ticket>)
    requires ReadyWaves(b, waves) && i <= |waves|
    requires w in b.open && w !in Union(waves[..i])
    ensures ChainTo(b, c, w) && |c| == i + 1
  {
    if i == 0 {
      c := [w];
    } else {
      var x := UnplacedBlocker(b, waves, i, w);
      var d := UnplacedHasChain(b, waves, i - 1, x);
      OneMore(b, d, w);
      c := d + [w];
    }
  }

  /** No chain that ends in wave `i` has more than `i + 1` tickets. */
  lemma {:induction false} PlacedBoundsChains(
      b: Board, waves: seq<set<Ticket>>, stuck: set<Ticket>, i: nat, c: seq<Ticket>)
    requires WavePlan(b, waves, stuck) && i < |waves|
    requires Chain(b, c) && c[|c| - 1] in waves[i]
    ensures |c| <= i + 1
  {
    if |c| > 1 {
      var x := c[|c| - 2];
      assert x in b.Blockers(c[|c| - 1]);
      var j := InUnion(waves, i, x);
      SubChain(b, c, 0, |c| - 1);
      PlacedBoundsChains(b, waves, stuck, j, c[0..|c| - 1]);
    }
  }

  /** The longest chain of open blockers ending at `w` has exactly `n` tickets. */
  ghost predicate LongestChainTo(b: Board, w: Ticket, n: nat) {
    && (exists c :: ChainTo(b, c, w) && |c| == n)
    && (forall c :: ChainTo(b, c, w) ==> |c| <= n)
  }

  lemma PlacedRank(b: Board, waves: seq<set<Ticket>>, stuck: set<Ticket>, i: nat, w: Ticket)
    requires WavePlan(b, waves, stuck) && i < |waves| && w in waves[i]
    ensures LongestChainTo(b, w, i + 1)
  {
    var c := UnplacedHasChain(b, waves, i, w);
    forall c | ChainTo(b, c, w)
      ensures |c| <= i + 1
    {
      PlacedBoundsChains(b, waves, stuck, i, c);
    }
  }

  /** On every graph, cyclic or not, a ticket is in wave `i` exactly when the longest chain of open
      blockers ending at it has `i` edges. */
  lemma WaveIndexIsLongestChain(b: Board, waves: seq<set<Ticket>>, stuck: set<Ticket>, i: nat, w: Ticket)
    requires WavePlan(b, waves, stuck) && i < |waves| && w in b.open
    ensures w in waves[i] <==> LongestChainTo(b, w, i + 1)
  {
    if w in waves[i] {
      PlacedRank(b, waves, stuck, i, w);
    } else if w !in Union(waves[..i]) {
      UnionStep(waves, i);
      var c := UnplacedHasChain(b, waves, i + 1, w);
    } else {
      var j := InUnion(waves, i, w);
      PlacedRank(b, waves, stuck, j, w);
    }
  }

  // ---------------------------------------------------------------------------------------------
  // Stuck tickets
  // ---------------------------------------------------------------------------------------------

  /** When the planner stopped because nothing was ready, stuck tickets end chains of every length. */
  lemma {:induction false} UnreadyHasChain(b: Board, waves: seq<set<Ticket>>, stuck: set<Ticket>, w: Ticket, n: nat)
    returns (c: seq<Ticket>)
    requires WavePlan(b, waves, stuck) && |waves| < WAVE_LIMIT && w in stuck
    ensures ChainTo(b, c, w) && |c| == n + 1
    decreases n
  {
    if n == 0 {
      c := [w];
    } else {
      assert w !in Ready(b, Union(waves));
      var x :| x in b.Blockers(w) && x !in Union(waves);
      var d := UnreadyHasChain(b, waves, stuck, x, n - 1);
      JoinChains(b, d, [w]);
      c := d + [w];
    }
  }

  /** A ticket is stuck exactly when a chain of 82 tickets ends at it. */
  lemma StuckIffLongChain(b: Board, waves: seq<set<Ticket>>, stuck: set<Ticket>, w: Ticket)
    requires WavePlan(b, waves, stuck) && w in b.open
    ensures w in stuck <==> exists c :: ChainTo(b, c, w) && |c| == 82
  {
    assert waves[..|waves|] == waves;
    if w in stuck {
      if |waves| < WAVE_LIMIT {
        var c := UnreadyHasChain(b, waves, stuck, w, WAVE_LIMIT);
      } else {
        var c := UnplacedHasChain(b, waves, |waves|, w);
      }
    } else {
      var i := InUnion(waves, |waves|, w);
      forall c | ChainTo(b, c, w)
        ensures |c| <= WAVE_LIMIT
      {
        PlacedBoundsChains(b, waves, stuck, i, c);
      }
    }
  }

  lemma LongChainIsStuck(b: Board, waves: seq<set<Ticket>>, stuck: set<Ticket>, c: seq<Ticket>)
    requires WavePlan(b, waves, stuck) && Chain(b, c) && |c| > WAVE_LIMIT
    ensures c[|c| - 1] in stuck
  {
    var d := c[|c| - WAVE_LIMIT - 1..|c|];
    SubChain(b, c, |c| - WAVE_LIMIT - 1, |c|);
    assert ChainTo(b, d, c[|c| - 1]) && |d| == WAVE_LIMIT + 1;
    StuckIffLongChain(b, waves, stuck, c[|c| - 1]);
  }

  /** Everything on or downstream of an open cycle is stuck, whatever stopped the loop. */
  lemma CyclicIsStuck(b: Board, waves: seq<set<Ticket>>, stuck: set<Ticket>, w: Ticket)
    requires WavePlan(b, waves, stuck) && DownstreamOfCycle(b, w)
    ensures w in stuck
  {
    var c := CyclicHasLongChains(b, w, WAVE_LIMIT);
    LongChainIsStuck(b, waves, stuck, c);
  }

  /** If the loop stopped for lack of ready tickets, the stuck tickets are exactly those on or
      downstream of an open cycle. */
  lemma StuckIsCyclic(b: Board, waves: seq<set<Ticket>>, stuck: set<Ticket>, w: Ticket)
    requires WavePlan(b, waves, stuck) && |waves| < WAVE_LIMIT && w in b.open
    ensures w in stuck <==> DownstreamOfCycle(b, w)
  {
    if w in stuck {
      var c := UnreadyHasChain(b, waves, stuck, w, |b.open|);
      if Distinct(c) {
        DistinctFits(c, b.open);
      }
      LongChainIsCyclic(b, c);
    }
    if DownstreamOfCycle(b, w) {
      CyclicIsStuck(b, waves, stuck, w);
    }
  }

  /** Every chain into a ticket that no cycle reaches has at most 81 tickets. */
  ghost predicate FitsLimit(b: Board) {
    forall c :: Chain(b, c) && !DownstreamOfCycle(b, c[|c| - 1]) ==> |c| <= 81
  }

  lemma FittingStuckIsCyclic(b: Board, waves: seq<set<Ticket>>, stuck: set<Ticket>, w: Ticket)
    requires WavePlan(b, waves, stuck) && FitsLimit(b) && w in b.open
    ensures w in stuck <==> DownstreamOfCycle(b, w)
  {
    if DownstreamOfCycle(b, w) {
      CyclicIsStuck(b, waves, stuck, w);
    } else if w in stuck {
      StuckIffLongChain(b, waves, stuck, w);
    }
  }

  /** "Stuck" means "behind a cycle" on exactly the graphs whose cycle-free chains fit the limit. */
  lemma StuckMeansCyclicExactly(b: Board, waves: seq<set<Ticket>>, stuck: set<Ticket>)
    requires WavePlan(b, waves, stuck)
    ensures (forall w :: w in b.open ==> (w in stuck <==> DownstreamOfCycle(b, w))) <==> FitsLimit(b)
  {
    if FitsLimit(b) {
      forall w | w in b.open
        ensures w in stuck <==> DownstreamOfCycle(b, w)
      {
        FittingStuckIsCyclic(b, waves, stuck, w);
      }
    } else {
      var c :| Chain(b, c) && !DownstreamOfCycle(b, c[|c| - 1]) && |c| > WAVE_LIMIT;
      LongChainIsStuck(b, waves, stuck, c);
    }
  }

  /** The ticket at position `i` of a line. */
  function Nth(i: nat): Ticket {
    seq(i, _ => 'x')
  }

  /** 82 tickets, each blocked by the one before it and by nothing else. */
  function Line(): Board {
    var open := set i | 0 <= i <= WAVE_LIMIT :: Nth(i);
    Board(open,
          map w | w in open && |w| > 0 :: {w[1..]},
          map w | w in open && |w| < WAVE_LIMIT :: {w + "x"})
  }

  /** A graph with no cycle at all can still be reported stuck: the last of 82 tickets in a line. */
  lemma LineIsCutShort(waves: seq<set<Ticket>>, stuck: set<Ticket>)
    requires WavePlan(Line(), waves, stuck)
    ensures Line().Valid() && Acyclic(Line())
    ensures Nth(WAVE_LIMIT) in stuck
  {
    LineValid();
    LineRises();
    var c := seq(WAVE_LIMIT + 1, i requires 0 <= i => Nth(i));
    forall i | 0 < i < |c|
      ensures c[i - 1] in Line().Blockers(c[i])
    {
      LineStep(i);
    }
    assert ChainTo(Line(), c, Nth(WAVE_LIMIT));
    StuckIffLongChain(Line(), waves, stuck, Nth(WAVE_LIMIT));
  }

  lemma LineStep(i: nat)
    requires 0 < i <= WAVE_LIMIT
    ensures Nth(i)[1..] == Nth(i - 1) && Nth(i) == Nth(i - 1) + "x"
    ensures Nth(i - 1) in Line().Blockers(Nth(i)) && Nth(i) in Get(Line().blocks, Nth(i - 1))
  {
    assert Nth(i) in Line().open && Nth(i - 1) in Line().open;
  }

  lemma LineValid()
    ensures Line().Valid()
  {
    forall x, y
      ensures x in Get(Line().blockedBy, y) <==> y in Get(Line().blocks, x)
    {
      if x in Get(Line().blockedBy, y) {
        assert y == Nth(|y|);
        LineStep(|y|);
      }
      if y in Get(Line().blocks, x) {
        assert x == Nth(|x|);
        LineStep(|x| + 1);
      }
    }
  }

  lemma LineRises()
    ensures Acyclic(Line())
  {
    forall c | Chain(Line(), c)
      ensures !Cycle(Line(), c)
    {
      if |c| >= 2 {
        ChainRises(c);
      }
    }
  }

  lemma {:induction false} ChainRises(c: seq<Ticket>)
    requires Chain(Line(), c)
    ensures |c[|c| - 1]| >= |c[0]| + |c| - 1
  {
    if |c| > 1 {
      SubChain(Line(), c, 0, |c| - 1);
      ChainRises(c[0..|c| - 1]);
      assert c[|c| - 2] in Line().Blockers(c[|c| - 1]);
    }
  }

  // ---------------------------------------------------------------------------------------------
  // Optimality
  // ---------------------------------------------------------------------------------------------

  /** A schedule gives every open ticket a slot later than the slots of its open blockers. */
  ghost predicate Schedule(b: Board, slot: map<Ticket, nat>) {
    && slot.Keys == b.open
    && forall w, x :: w in b.open && x in b.Blockers(w) ==> slot[x] < slot[w]
  }

  lemma {:induction false} ScheduleBoundsChain(b: Board, slot: map<Ticket, nat>, c: seq<Ticket>)
    requires Schedule(b, slot) && Chain(b, c)
    ensures |c| <= slot[c[|c| - 1]] + 1
  {
    if |c| > 1 {
      SubChain(b, c, 0, |c| - 1);
      ScheduleBoundsChain(b, slot, c[0..|c| - 1]);
      assert c[|c| - 2] in b.Blockers(c[|c| - 1]);
    }
  }

  /** The planner is optimal: no schedule runs any ticket in an earlier slot than its wave, and a
      stuck ticket has no slot below the limit. */
  lemma WavesAreEarliest(b: Board, waves: seq<set<Ticket>>, stuck: set<Ticket>, slot: map<Ticket, nat>)
    requires WavePlan(b, waves, stuck) && Schedule(b, slot)
    ensures forall i, w :: 0 <= i < |waves| && w in waves[i] ==> i <= slot[w]
    ensures forall w :: w in stuck ==> 81 <= slot[w]
  {
    forall i, w | 0 <= i < |waves| && w in waves[i]
      ensures i <= slot[w]
    {
      var c := UnplacedHasChain(b, waves, i, w);
      ScheduleBoundsChain(b, slot, c);
    }
    forall w | w in stuck
      ensures WAVE_LIMIT <= slot[w]
    {
      StuckIffLongChain(b, waves, stuck, w);
      var c :| ChainTo(b, c, w) && |c| == WAVE_LIMIT + 1;
      ScheduleBoundsChain(b, slot, c);
    }
  }
}
