/** The dependency graph of open tickets: two mirrored adjacency maps built one edge at a time,
    and the chains, cycles and schedules that the wave planner is judged against. */
module TicketGraph {
  import opened Basics

  type Ticket = string
  type Adjacency = map<Ticket, set<Ticket>>

  datatype Edge = Edge(blocker: Ticket, blocked: Ticket)

  /** `m.get(w, set())`. */
  function Get(m: Adjacency, w: Ticket): set<Ticket> {
    if w in m then m[w] else {}
  }

  /** An edge request is ignored when it is a self-edge or names an unknown ticket. */
  predicate Admitted(tickets: set<Ticket>, e: Edge) {
    e.blocker != e.blocked && e.blocker in tickets && e.blocked in tickets
  }

  /** `blocks` is exactly the converse of `blockedBy`. */
  ghost predicate Mirrored(blockedBy: Adjacency, blocks: Adjacency) {
    forall x, y :: x in Get(blockedBy, y) <==> y in Get(blocks, x)
  }

  class EdgeMaps {
    const tickets: set<Ticket>
    var blockedBy: Adjacency
    var blocks: Adjacency

    constructor (tickets: set<Ticket>)
      ensures this.tickets == tickets && blockedBy == map[] && blocks == map[]
    {
      this.tickets := tickets;
      blockedBy, blocks := map[], map[];
    }

    method AddEdge(blocker: Ticket, blocked: Ticket)
      modifies this
      ensures !Admitted(tickets, Edge(blocker, blocked)) ==>
                blockedBy == old(blockedBy) && blocks == old(blocks)
      ensures Admitted(tickets, Edge(blocker, blocked)) ==>
                && blockedBy == old(blockedBy)[blocked := Get(old(blockedBy), blocked) + {blocker}]
                && blocks == old(blocks)[blocker := Get(old(blocks), blocker) + {blocked}]
      ensures old(Mirrored(blockedBy, blocks)) ==> Mirrored(blockedBy, blocks)
    {
      if blocker == blocked || blocker !in tickets || blocked !in tickets {
        return;
      }
      blockedBy := blockedBy[blocked := Get(blockedBy, blocked) + {blocker}];
      blocks := blocks[blocker := Get(blocks, blocker) + {blocked}];
      assert forall y :: Get(blockedBy, y) == Get(old(blockedBy), y) + if y == blocked then {blocker} else {};
      assert forall x :: Get(blocks, x) == Get(old(blocks), x) + if x == blocker then {blocked} else {};
    }
  }

  /** The map holds exactly the requested edges between two different known tickets. */
  ghost predicate BuiltFrom(blockedBy: Adjacency, tickets: set<Ticket>, requests: seq<Edge>) {
    forall x, y :: x in Get(blockedBy, y) <==> Edge(x, y) in requests && x != y && x in tickets && y in tickets
  }

  /** Any sequence of edge requests leaves two mirrored maps holding exactly the admitted requests. */
  method BuildEdges(tickets: set<Ticket>, requests: seq<Edge>) returns (maps: EdgeMaps)
    ensures fresh(maps) && maps.tickets == tickets
    ensures Mirrored(maps.blockedBy, maps.blocks)
    ensures BuiltFrom(maps.blockedBy, tickets, requests)
  {
    maps := new EdgeMaps(tickets);
    for i := 0 to |requests|
      invariant fresh(maps) && maps.tickets == tickets
      invariant Mirrored(maps.blockedBy, maps.blocks)
      invariant forall x, y :: x in Get(maps.blockedBy, y) <==>
                               Edge(x, y) in requests[..i] && Admitted(tickets, Edge(x, y))
    {
      assert requests[..i + 1] == requests[..i] + [requests[i]];
      maps.AddEdge(requests[i].blocker, requests[i].blocked);
    }
    assert requests[..|requests|] == requests;
  }

  // ---------------------------------------------------------------------------------------------
  // The open sub-graph
  // ---------------------------------------------------------------------------------------------

  datatype Board = Board(open: set<Ticket>, blockedBy: Adjacency, blocks: Adjacency) {
    ghost predicate Valid() {
      Mirrored(blockedBy, blocks)
    }

    /** The open blockers of a ticket. */
    function Blockers(w: Ticket): set<Ticket> {
      Get(blockedBy, w) * open
    }

    /** The open tickets that a ticket blocks. */
    function Kids(w: Ticket): set<Ticket> {
      Get(blocks, w) * open
    }
  }

  /** A non-empty list of open tickets, each an open blocker of the next. */
  ghost predicate Chain(b: Board, c: seq<Ticket>) {
    && c != []
    && (forall i :: 0 <= i < |c| ==> c[i] in b.open)
    && (forall i :: 0 < i < |c| ==> c[i - 1] in b.Blockers(c[i]))
  }

  ghost predicate ChainTo(b: Board, c: seq<Ticket>, w: Ticket) {
    Chain(b, c) && c[|c| - 1] == w
  }

  ghost predicate ChainFrom(b: Board, c: seq<Ticket>, w: Ticket) {
    Chain(b, c) && c[0] == w
  }

  /** A closed walk: a chain of at least one edge that returns to where it started. */
  ghost predicate Cycle(b: Board, c: seq<Ticket>) {
    Chain(b, c) && |c| >= 2 && c[0] == c[|c| - 1]
  }

  ghost predicate Acyclic(b: Board) {
    forall c :: Chain(b, c) ==> !Cycle(b, c)
  }

  /** `w` lies on an open cycle or downstream of one. */
  ghost predicate DownstreamOfCycle(b: Board, w: Ticket) {
    exists cycle, c :: Cycle(b, cycle) && ChainTo(b, c, w) && c[0] == cycle[0]
  }

  lemma SubChain(b: Board, c: seq<Ticket>, i: nat, j: nat)
    requires Chain(b, c) && i < j <= |c|
    ensures Chain(b, c[i..j])
  {
  }

  lemma JoinChains(b: Board, c: seq<Ticket>, d: seq<Ticket>)
    requires Chain(b, c) && Chain(b, d) && c[|c| - 1] in b.Blockers(d[0])
    ensures Chain(b, c + d)
  {
    var e := c + d;
    forall i | 0 < i < |e|
      ensures e[i - 1] in b.Blockers(e[i])
    {
      if i == |c| {
        assert e[i - 1] == c[|c| - 1] && e[i] == d[0];
      } else if i > |c| {
        assert e[i - 1] == d[i - |c| - 1] && e[i] == d[i - |c|];
      }
    }
  }

  /** Pigeonhole: a list without repetition over a set is no longer than the set. */
  lemma {:induction false} DistinctFits(c: seq<Ticket>, s: set<Ticket>)
    requires Distinct(c) && forall i :: 0 <= i < |c| ==> c[i] in s
    ensures |c| <= |s|
  {
    if c != [] {
      DistinctFits(c[1..], s - {c[0]});
    }
  }

  /** The end of a chain that repeats a ticket is downstream of a cycle. */
  lemma LongChainIsCyclic(b: Board, c: seq<Ticket>)
    requires Chain(b, c) && !Distinct(c)
    ensures DownstreamOfCycle(b, c[|c| - 1])
  {
    var i, j :| 0 <= i < j < |c| && c[i] == c[j];
    SubChain(b, c, i, j + 1);
    SubChain(b, c, i, |c|);
    assert Cycle(b, c[i..j + 1]) && ChainTo(b, c[i..], c[|c| - 1]);
    assert c[i..|c|] == c[i..];
  }

  /** A ticket downstream of a cycle ends chains of every length. */
  lemma {:induction false} CyclicHasLongChains(b: Board, w: Ticket, n: nat) returns (c: seq<Ticket>)
    requires DownstreamOfCycle(b, w)
    ensures ChainTo(b, c, w) && |c| > n
    decreases n
  {
    var cycle, tail :| Cycle(b, cycle) && ChainTo(b, tail, w) && tail[0] == cycle[0];
    if n == 0 {
      return tail;
    }
    var longer := WindCycle(b, cycle, n);
    var m := |longer| - 1;
    c := longer[..m] + tail;
    SubChain(b, longer, 0, m);
    assert longer[..m] == longer[0..m];
    JoinChains(b, longer[..m], tail);
  }

  /** Going round a cycle gives chains of every length that end at its start. */
  lemma {:induction false} WindCycle(b: Board, cycle: seq<Ticket>, n: nat) returns (c: seq<Ticket>)
    requires Cycle(b, cycle)
    ensures ChainTo(b, c, cycle[0]) && |c| > n && |c| >= 2
  {
    if n == 0 {
      return cycle;
    }
    var rest := WindCycle(b, cycle, n - 1);
    SubChain(b, cycle, 1, |cycle|);
    assert cycle[1..|cycle|] == cycle[1..];
    JoinChains(b, rest, cycle[1..]);
    c := rest + cycle[1..];
  }
}
