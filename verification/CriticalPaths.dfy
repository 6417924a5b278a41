/** Critical paths: a memoised depth-first search with a cycle guard, run from every unblocked
    ticket, and the theorem that ties its lengths to the number of waves. */
module CriticalPaths {
  import opened Basics
  import opened TicketGraph
  import opened Waves

  /** A search result: a length and the chain that has it. */
  datatype Path = Path(length: nat, chain: seq<Ticket>)

  ghost predicate ReachesCycle(b: Board, w: Ticket) {
    exists cycle, c :: Cycle(b, cycle) && ChainFrom(b, c, w) && c[|c| - 1] == cycle[0]
  }

  /** `r` is a repetition-free chain from `w` of the stated length, and the longest chain from `w`
      unless `w` reaches a cycle. */
  ghost predicate GoodPath(b: Board, w: Ticket, r: Path) {
    && ChainFrom(b, r.chain, w) && Distinct(r.chain) && r.length == |r.chain|
    && (!ReachesCycle(b, w) ==> forall c :: ChainFrom(b, c, w) ==> |c| <= r.length)
  }

  ghost predicate Root(b: Board, w: Ticket) {
    w in b.open && b.Blockers(w) == {}
  }

  /** A root that blocks something has a path of more than one ticket. */
  ghost predicate GoesOn(b: Board, w: Ticket, r: Path) {
    Root(b, w) && b.Kids(w) != {} ==> r.length > 1
  }

  /** Every memoised result is good, those of roots go on, and every ticket of a memoised chain was
      memoised too. */
  ghost predicate MemoOk(b: Board, memo: map<Ticket, Path>) {
    forall w :: w in memo ==> GoodPath(b, w, memo[w]) && GoesOn(b, w, memo[w]) && forall x :: x in memo[w].chain ==> x in memo
  }

  // ---------------------------------------------------------------------------------------------
  // The search as a function of the visiting order
  // ---------------------------------------------------------------------------------------------

  /** The order in which the open children of each ticket are visited. */
  type VisitOrder = map<Ticket, seq<Ticket>>

  function InOrder(order: VisitOrder, w: Ticket): seq<Ticket> {
    if w in order then order[w] else []
  }

  ghost predicate Visits(b: Board, order: VisitOrder) {
    forall w, c :: w in b.open ==> (c in InOrder(order, w) <==> c in b.Kids(w))
  }

  /** `w` put before a path when that beats the best so far. */
  function Better(w: Ticket, q: Path, best: Path): Path {
    if q.length + 1 > best.length then Path(q.length + 1, [w] + q.chain) else best
  }

  /** The memo and the result of searching from `w`. */
  function DepthFrom(b: Board, order: VisitOrder, memo: map<Ticket, Path>, stack: set<Ticket>, w: Ticket)
    : (map<Ticket, Path>, Path)
    decreases b.open - stack, 0
  {
    if w in memo then (memo, memo[w])
    else if w in stack || w !in b.open then (memo, Path(0, []))
    else if InOrder(order, w) == [] then (memo[w := Path(1, [w])], Path(1, [w]))
    else
      var e := ExploreFrom(b, order, memo, stack + {w}, w, InOrder(order, w), Path(0, []));
      (e.0[w := e.1], e.1)
  }

  function ExploreFrom(b: Board, order: VisitOrder, memo: map<Ticket, Path>, stack: set<Ticket>, w: Ticket,
                       todo: seq<Ticket>, best: Path): (map<Ticket, Path>, Path)
    decreases b.open - stack, 1 + |todo|
  {
    if todo == [] then (memo, best)
    else
      var d := DepthFrom(b, order, memo, stack, todo[0]);
      ExploreFrom(b, order, d.0, stack, w, todo[1..], Better(w, d.1, best))
  }

  /** The memo and the listing after some tickets. */
  function ListFrom(b: Board, order: VisitOrder, memo: map<Ticket, Path>, tickets: seq<Ticket>)
    : (map<Ticket, Path>, seq<Path>)
  {
    if tickets == [] then (memo, [])
    else
      var n := |tickets| - 1;
      var before := ListFrom(b, order, memo, tickets[..n]);
      if b.Blockers(tickets[n]) != {} then before
      else
        var d := DepthFrom(b, order, before.0, {}, tickets[n]);
        (d.0, if d.1.length > 1 then before.1 + [d.1] else before.1)
  }

  class Search {
    const b: Board
    const order: VisitOrder
    var memo: map<Ticket, Path>
    var stack: set<Ticket>

    ghost predicate Valid()
      reads this
    {
      b.Valid() && Visits(b, order) && MemoOk(b, memo) && stack !! memo.Keys
    }

    constructor (b: Board, order: VisitOrder)
      requires b.Valid() && Visits(b, order)
      ensures Valid() && this.b == b && this.order == order && stack == {} && memo == map[]
    {
      this.b := b;
      this.order := order;
      memo, stack := map[], {};
    }

    /** `trail` is the chain of calls that led to `w`; its tickets before `w` are the stack. */
    method Depth(w: Ticket, ghost trail: seq<Ticket>) returns (r: Path)
      requires Valid() && ChainTo(b, trail, w)
      requires forall x :: x in stack <==> x in trail[..|trail| - 1]
      modifies this
      ensures Valid() && stack == old(stack)
      ensures forall x :: x in old(memo) ==> x in memo && memo[x] == old(memo)[x]
      ensures w in stack ==> r == Path(0, [])
      ensures w !in stack ==> w in memo && memo[w] == r && GoodPath(b, w, r) && GoesOn(b, w, r)
      ensures (memo, r) == DepthFrom(b, order, old(memo), stack, w)
      decreases b.open - stack, 0
    {
      if w in memo {
        return memo[w];
      }
      if w in stack {
        return Path(0, []);
      }
      var kids := InOrder(order, w);
      if kids == [] {
        NoKids(b, order, w);
        LeafPath(b, w);
        memo := memo[w := Path(1, [w])];
        return memo[w];
      }
      stack := stack + {w};
      var best := Explore(w, trail);
      RootGoesOn(b, w, trail, memo, stack, best);
      stack := stack - {w};
      assert stack == old(stack);
      BestIsGood(b, w, memo, best);
      memo := memo[w := best];
      return best;
    }

    /** The loop over the children of `w`, which is on the stack. */
    method Explore(w: Ticket, ghost trail: seq<Ticket>) returns (best: Path)
      requires Valid() && ChainTo(b, trail, w) && InOrder(order, w) != []
      requires w in stack && forall x :: x in stack <==> x in trail
      modifies this
      ensures Valid() && stack == old(stack)
      ensures forall x :: x in old(memo) ==> x in memo && memo[x] == old(memo)[x]
      ensures Candidate(b, w, memo, best) && Surveyed(b, w, memo, stack, b.Kids(w), best)
      ensures (memo, best) == ExploreFrom(b, order, old(memo), stack, w, InOrder(order, w), Path(0, []))
      decreases b.open - stack, 2
    {
      best := Path(0, []);
      var kids := InOrder(order, w);
      ghost var done: set<Ticket> := {};
      for i := 0 to |kids|
        invariant Valid() && stack == old(stack) && (i == 0 ==> best == Path(0, []))
        invariant forall x :: x in old(memo) ==> x in memo && memo[x] == old(memo)[x]
        invariant i > 0 ==> Candidate(b, w, memo, best)
        invariant Surveyed(b, w, memo, stack, done, best) && forall c :: c in done <==> c in kids[..i]
        invariant ExploreFrom(b, order, memo, stack, w, kids[i..], best) ==
                  ExploreFrom(b, order, old(memo), stack, w, kids, Path(0, []))
      {
        assert kids[i..][0] == kids[i] && kids[i..][1..] == kids[i + 1..];
        best := Visit(w, kids[i], trail, best, done);
        done := done + {kids[i]};
      }
      assert kids[..|kids|] == kids && done == b.Kids(w);
    }

    /** One child of `w`. */
    method Visit(w: Ticket, c: Ticket, ghost trail: seq<Ticket>, best0: Path, ghost done: set<Ticket>) returns (best: Path)
      requires Valid() && ChainTo(b, trail, w) && c in b.Kids(w)
      requires w in stack && forall x :: x in stack <==> x in trail
      requires Surveyed(b, w, memo, stack, done, best0) && (best0 == Path(0, []) || Candidate(b, w, memo, best0))
      modifies this
      ensures Valid() && stack == old(stack)
      ensures forall x :: x in old(memo) ==> x in memo && memo[x] == old(memo)[x]
      ensures Candidate(b, w, memo, best) && Surveyed(b, w, memo, stack, done + {c}, best)
      ensures memo == DepthFrom(b, order, old(memo), stack, c).0
      ensures best == Better(w, DepthFrom(b, order, old(memo), stack, c).1, best0)
      decreases b.open - stack, 1
    {
      JoinChains(b, trail, [c]);
      assert (trail + [c])[..|trail|] == trail;
      ghost var memo0 := memo;
      var q := Depth(c, trail + [c]);
      best := Better(w, q, best0);
      if c in stack {
        BackEdge(b, trail, c);
      }
      SurveyNext(b, w, memo0, memo, stack, done, best0, c, q, best);
    }

    /** The critical-path listing: one entry per unblocked ticket that blocks something. */
    method CriticalPaths(tickets: seq<Ticket>) returns (paths: seq<Path>)
      requires Valid() && stack == {}
      requires Distinct(tickets) && forall w :: w in tickets <==> w in b.open
      modifies this
      ensures Valid() && stack == {}
      ensures Listing(b, paths)
      ensures (memo, paths) == ListFrom(b, order, old(memo), tickets)
    {
      paths := [];
      ghost var todo := b.open;
      for i := 0 to |tickets|
        invariant Valid() && stack == {}
        invariant ListingBut(b, paths, todo) && forall w :: w in todo <==> w in tickets[i..]
        invariant (memo, paths) == ListFrom(b, order, old(memo), tickets[..i])
      {
        var w := tickets[i];
        assert tickets[..i + 1][..i] == tickets[..i] && w in tickets[i..];
        if b.Blockers(w) == {} {
          var r := Depth(w, [w]);
          if r.length > 1 {
            ListingGrows(b, paths, todo, w, r);
            paths := paths + [r];
          } else {
            ListingSkips(b, paths, todo, w);
          }
        } else {
          ListingSkips(b, paths, todo, w);
        }
        RestWithout(tickets, i, todo);
        todo := todo - {w};
      }
      assert tickets[..|tickets|] == tickets && todo == {};
    }
  }

  lemma NoKids(b: Board, order: VisitOrder, w: Ticket)
    requires Visits(b, order) && w in b.open && InOrder(order, w) == []
    ensures b.Kids(w) == {}
  {
    assert forall c :: c in b.Kids(w) ==> c in InOrder(order, w);
  }

  lemma RestWithout(tickets: seq<Ticket>, i: nat, todo: set<Ticket>)
    requires i < |tickets| && Distinct(tickets) && forall w :: w in todo <==> w in tickets[i..]
    ensures forall w :: w in todo - {tickets[i]} <==> w in tickets[i + 1..]
  {
    assert tickets[i..] == [tickets[i]] + tickets[i + 1..];
    assert forall j :: i < j < |tickets| ==> tickets[j] != tickets[i];
  }

  /** The root `w` is listed with a good path, or it blocks nothing. */
  ghost predicate Listed(b: Board, paths: seq<Path>, w: Ticket) {
    b.Kids(w) == {} || exists r :: r in paths && GoodPath(b, w, r)
  }

  /** A good path of more than one ticket, from a root. */
  ghost predicate Entry(b: Board, r: Path) {
    r.length > 1 && r.chain != [] && Root(b, r.chain[0]) && GoodPath(b, r.chain[0], r)
  }

  /** No two paths start at the same ticket. */
  ghost predicate OncePerRoot(paths: seq<Path>) {
    forall i, j :: 0 <= i < j < |paths| && paths[i].chain != [] && paths[j].chain != [] ==>
                     paths[i].chain[0] != paths[j].chain[0]
  }

  /** The listing for all roots but those in `todo`. */
  ghost predicate ListingBut(b: Board, paths: seq<Path>, todo: set<Ticket>) {
    && (forall i :: 0 <= i < |paths| ==> Entry(b, paths[i]) && paths[i].chain[0] !in todo) && OncePerRoot(paths)
    && (forall w :: Root(b, w) && w !in todo ==> Listed(b, paths, w))
  }

  /** Exactly one good path for each root that blocks something, and nothing else. */
  ghost predicate Listing(b: Board, paths: seq<Path>) {
    ListingBut(b, paths, {})
  }

  lemma ListingSkips(b: Board, paths: seq<Path>, todo: set<Ticket>, w: Ticket)
    requires ListingBut(b, paths, todo) && (Root(b, w) ==> b.Kids(w) == {})
    ensures ListingBut(b, paths, todo - {w})
  {
  }

  lemma ListingGrows(b: Board, paths: seq<Path>, todo: set<Ticket>, w: Ticket, r: Path)
    requires ListingBut(b, paths, todo) && w in todo && Root(b, w) && GoodPath(b, w, r) && r.length > 1
    ensures ListingBut(b, paths + [r], todo - {w})
  {
    var more := paths + [r];
    forall x | Root(b, x) && x !in todo - {w}
      ensures Listed(b, more, x)
    {
      if x == w {
        assert more[|paths|] == r;
      } else {
        assert Listed(b, paths, x);
      }
    }
  }

  lemma LongTrailIsBlocked(b: Board, trail: seq<Ticket>)
    requires Chain(b, trail)
    ensures |trail| > 1 ==> b.Blockers(trail[|trail| - 1]) != {}
  {
    if |trail| > 1 {
      assert trail[|trail| - 2] in b.Blockers(trail[|trail| - 1]);
    }
  }

  /** The calls that lead to a root are that root alone, so none of its children is on the stack. */
  lemma RootGoesOn(b: Board, w: Ticket, trail: seq<Ticket>, memo: map<Ticket, Path>, stack: set<Ticket>, best: Path)
    requires b.Valid() && MemoOk(b, memo) && ChainTo(b, trail, w) && forall x :: x in stack ==> x in trail
    requires Surveyed(b, w, memo, stack, b.Kids(w), best)
    ensures GoesOn(b, w, best)
  {
    if Root(b, w) && b.Kids(w) != {} {
      var c :| c in b.Kids(w);
      LongTrailIsBlocked(b, trail);
      KidsMirrorBlockers(b, w, c);
      assert c != w && memo[c].length >= 1;
    }
  }

  /** Of these children, those on the stack close a cycle and the others are memoised and shorter. */
  ghost predicate Surveyed(b: Board, w: Ticket, memo: map<Ticket, Path>, stack: set<Ticket>, kids: set<Ticket>, best: Path) {
    && (forall c :: c in kids && c !in stack ==> c in memo && memo[c].length < best.length)
    && (forall c :: c in kids && c in stack ==> ReachesCycle(b, w))
  }

  /** A partial answer for `w`: a simple chain from `w` whose tail is memoised. */
  ghost predicate Candidate(b: Board, w: Ticket, memo: map<Ticket, Path>, r: Path) {
    && ChainFrom(b, r.chain, w) && Distinct(r.chain) && r.length == |r.chain|
    && forall i :: 0 < i < |r.chain| ==> r.chain[i] in memo
  }

  lemma KidsMirrorBlockers(b: Board, w: Ticket, c: Ticket)
    requires b.Valid() && w in b.open && c in b.open
    ensures c in b.Kids(w) <==> w in b.Blockers(c)
  {
  }

  lemma LeafPath(b: Board, w: Ticket)
    requires b.Valid() && w in b.open && b.Kids(w) == {}
    ensures GoodPath(b, w, Path(1, [w]))
  {
    forall c | ChainFrom(b, c, w)
      ensures |c| <= 1
    {
      if |c| > 1 {
        KidsMirrorBlockers(b, w, c[1]);
      }
    }
  }

  /** Every tail is memoised before its head, so a head never occurs in its own tail. */
  lemma Prepend(b: Board, w: Ticket, memo: map<Ticket, Path>, q: Path)
    requires b.Valid() && w in b.open && MemoOk(b, memo) && w !in memo
    requires q == Path(0, []) || exists c :: c in b.Kids(w) && c in memo && memo[c] == q
    ensures Candidate(b, w, memo, Path(q.length + 1, [w] + q.chain))
  {
    if q != Path(0, []) {
      JoinChains(b, [w], q.chain);
    }
  }

  /** One more child surveyed. */
  lemma SurveyNext(b: Board, w: Ticket, memo0: map<Ticket, Path>, memo: map<Ticket, Path>, stack: set<Ticket>,
                   done: set<Ticket>, best0: Path, c: Ticket, q: Path, best: Path)
    requires b.Valid() && w in b.open && MemoOk(b, memo) && w !in memo
    requires forall x :: x in memo0 ==> x in memo && memo[x] == memo0[x]
    requires Surveyed(b, w, memo0, stack, done, best0) && (best0 == Path(0, []) || Candidate(b, w, memo0, best0))
    requires c in b.Kids(w)
    requires if c in stack then q == Path(0, []) && ReachesCycle(b, w) else c in memo && memo[c] == q
    requires best == Better(w, q, best0)
    ensures Candidate(b, w, memo, best) && Surveyed(b, w, memo, stack, done + {c}, best)
  {
    if q.length + 1 > best0.length {
      Prepend(b, w, memo, q);
    }
  }

  /** Meeting a ticket of the stack closes a cycle. */
  lemma BackEdge(b: Board, trail: seq<Ticket>, c: Ticket)
    requires b.Valid() && Chain(b, trail) && c in trail && c in b.Kids(trail[|trail| - 1])
    ensures ReachesCycle(b, trail[|trail| - 1])
  {
    var w := trail[|trail| - 1];
    var i :| 0 <= i < |trail| && trail[i] == c;
    SubChain(b, trail, i, |trail|);
    var loop := trail[i..|trail|] + [c];
    JoinChains(b, trail[i..|trail|], [c]);
    assert Cycle(b, loop) && ChainFrom(b, [w, c], w);
  }

  lemma KidReachesLess(b: Board, w: Ticket, c: Ticket)
    requires b.Valid() && w in b.open && c in b.Kids(w) && ReachesCycle(b, c)
    ensures ReachesCycle(b, w)
  {
    var cycle, d :| Cycle(b, cycle) && ChainFrom(b, d, c) && d[|d| - 1] == cycle[0];
    JoinChains(b, [w], d);
    assert ChainFrom(b, [w] + d, w);
  }

  lemma BestIsGood(b: Board, w: Ticket, memo: map<Ticket, Path>, best: Path)
    requires b.Valid() && w in b.open && MemoOk(b, memo) && Candidate(b, w, memo, best)
    requires ReachesCycle(b, w) || forall c :: c in b.Kids(w) ==> c in memo && memo[c].length < best.length
    ensures GoodPath(b, w, best)
  {
    if !ReachesCycle(b, w) {
      forall c | ChainFrom(b, c, w)
        ensures |c| <= best.length
      {
        if |c| > 1 {
          TailIsBounded(b, w, memo, c);
        }
      }
    }
  }

  lemma TailIsBounded(b: Board, w: Ticket, memo: map<Ticket, Path>, c: seq<Ticket>)
    requires b.Valid() && MemoOk(b, memo) && !ReachesCycle(b, w) && ChainFrom(b, c, w) && |c| > 1
    requires c[1] in memo
    ensures c[1] in b.Kids(w) && |c| <= memo[c[1]].length + 1
  {
    assert c[0] in b.Blockers(c[1]);
    SubChain(b, c, 1, |c|);
    assert ChainFrom(b, c[1..|c|], c[1]);
    if ReachesCycle(b, c[1]) {
      KidReachesLess(b, w, c[1]);
    }
    assert GoodPath(b, c[1], memo[c[1]]);
  }

  /** Chains from a ticket that reaches a cycle have every length. */
  lemma ReachesLongChains(b: Board, w: Ticket, n: nat) returns (c: seq<Ticket>)
    requires ReachesCycle(b, w)
    ensures ChainFrom(b, c, w) && |c| > n
  {
    var cycle, head :| Cycle(b, cycle) && ChainFrom(b, head, w) && head[|head| - 1] == cycle[0];
    var longer := UnwindCycle(b, cycle, n);
    JoinChains(b, head, longer[1..]) by {
      SubChain(b, longer, 1, |longer|);
      assert longer[1..|longer|] == longer[1..];
    }
    c := head + longer[1..];
  }

  lemma {:induction false} UnwindCycle(b: Board, cycle: seq<Ticket>, n: nat) returns (c: seq<Ticket>)
    requires Cycle(b, cycle)
    ensures ChainFrom(b, c, cycle[0]) && |c| > n && |c| >= 2
  {
    if n == 0 {
      return cycle;
    }
    var rest := UnwindCycle(b, cycle, n - 1);
    var m := |cycle| - 1;
    SubChain(b, cycle, 0, m);
    assert cycle[0..m] == cycle[..m];
    JoinChains(b, cycle[..m], rest);
    c := cycle[..m] + rest;
  }

  /** The returned length is the maximum over all chains from the ticket exactly when the ticket
      reaches no cycle. */
  lemma LengthIsMaximalExactly(b: Board, w: Ticket, r: Path)
    requires GoodPath(b, w, r)
    ensures (forall c :: ChainFrom(b, c, w) ==> |c| <= r.length) <==> !ReachesCycle(b, w)
  {
    if ReachesCycle(b, w) {
      var c := ReachesLongChains(b, w, r.length);
    }
  }

  /** Whatever the visiting order, a root that reaches no cycle is listed with the same length. */
  lemma ListingsAgree(b: Board, ps: seq<Path>, qs: seq<Path>, i: nat, j: nat)
    requires Listing(b, ps) && Listing(b, qs) && i < |ps| && j < |qs|
    requires ps[i].chain[0] == qs[j].chain[0] && !ReachesCycle(b, ps[i].chain[0])
    ensures ps[i].length == qs[j].length
  {
    assert Entry(b, ps[i]) && Entry(b, qs[j]);
  }

  /** Of several children with a longest path, the one visited first is followed. */
  lemma {:induction false} FirstLongestWins(b: Board, order: VisitOrder, memo: map<Ticket, Path>, stack: set<Ticket>, w: Ticket,
                                            todo: seq<Ticket>, best: Path) returns (i: nat)
    requires forall c :: c in todo ==> c in memo
    ensures var r := ExploreFrom(b, order, memo, stack, w, todo, best);
            && r.0 == memo && i <= |todo|
            && r.1 == (if i == |todo| then best else Path(memo[todo[i]].length + 1, [w] + memo[todo[i]].chain))
            && best.length <= r.1.length && (i < |todo| ==> best.length < r.1.length)
            && (forall j :: 0 <= j < |todo| ==> memo[todo[j]].length + 1 <= r.1.length)
            && (forall j :: 0 <= j < i && i < |todo| ==> memo[todo[j]].length + 1 < r.1.length)
    decreases |todo|
  {
    if todo == [] {
      return 0;
    }
    var q := memo[todo[0]];
    var rest := todo[1..];
    var k := FirstLongestWins(b, order, memo, stack, w, rest, Better(w, q, best));
    if k < |rest| {
      i := k + 1;
    } else if q.length + 1 > best.length {
      i := 0;
    } else {
      i := |todo|;
    }
  }

  // ---------------------------------------------------------------------------------------------
  // Beyond that the visiting order shows
  // ---------------------------------------------------------------------------------------------

  /** Two roots, one into each of two tickets that block each other. */
  function Knot(): Board {
    Board({"r", "s", "x", "y"},
          map["x" := {"r", "y"}, "y" := {"s", "x"}],
          map["r" := {"x"}, "s" := {"y"}, "x" := {"y"}, "y" := {"x"}])
  }

  const KNOT_ORDER: VisitOrder := map["r" := ["x"], "s" := ["y"], "x" := ["y"], "y" := ["x"]]

  /** A ticket with one child. */
  lemma OneChild(b: Board, order: VisitOrder, memo: map<Ticket, Path>, stack: set<Ticket>, w: Ticket, c: Ticket)
    requires w in b.open && w !in stack && w !in memo && InOrder(order, w) == [c]
    ensures var d := DepthFrom(b, order, memo, stack + {w}, c);
            var r := Path(d.1.length + 1, [w] + d.1.chain);
            DepthFrom(b, order, memo, stack, w) == (d.0[w := r], r)
  {
    var d := DepthFrom(b, order, memo, stack + {w}, c);
    assert [c][1..] == [];
    assert ExploreFrom(b, order, memo, stack + {w}, w, [c], Path(0, [])) == (d.0, Path(d.1.length + 1, [w] + d.1.chain));
  }

  /** From `u` into the knot of `x` and `y`, which nothing has visited. */
  lemma IntoKnot(b: Board, order: VisitOrder, u: Ticket, x: Ticket, y: Ticket)
    requires {u, x, y} <= b.open && u != x && u != y && x != y
    requires InOrder(order, u) == [x] && InOrder(order, x) == [y] && InOrder(order, y) == [x]
    ensures DepthFrom(b, order, map[], {}, u) ==
            (map[y := Path(1, [y]), x := Path(2, [x, y]), u := Path(3, [u, x, y])], Path(3, [u, x, y]))
  {
    OneChild(b, order, map[], {}, u, x);
    OneChild(b, order, map[], {} + {u}, x, y);
    OneChild(b, order, map[], {} + {u} + {x}, y, x);
    assert DepthFrom(b, order, map[], {} + {u} + {x} + {y}, x) == (map[], Path(0, []));
    assert [y] + [] == [y] && [x] + [y] == [x, y] && [u] + [x, y] == [u, x, y];
  }

  /** Then from `v` to `y`: only what is memoised. */
  lemma AfterKnot(b: Board, order: VisitOrder, memo: map<Ticket, Path>, v: Ticket, y: Ticket)
    requires v in b.open && v !in memo && y in memo && memo[y] == Path(1, [y]) && InOrder(order, v) == [y]
    ensures DepthFrom(b, order, memo, {}, v).1 == Path(2, [v, y])
  {
    OneChild(b, order, memo, {}, v, y);
    assert [v] + [y] == [v, y];
  }

  lemma ListSnoc(b: Board, order: VisitOrder, memo: map<Ticket, Path>, tickets: seq<Ticket>, w: Ticket)
    ensures var before := ListFrom(b, order, memo, tickets);
            var d := DepthFrom(b, order, before.0, {}, w);
            ListFrom(b, order, memo, tickets + [w]) ==
            if b.Blockers(w) != {} then before else (d.0, if d.1.length > 1 then before.1 + [d.1] else before.1)
  {
    assert (tickets + [w])[..|tickets|] == tickets;
  }

  lemma KnotListing(b: Board, order: VisitOrder, u: Ticket, v: Ticket, x: Ticket, y: Ticket)
    requires {u, v, x, y} <= b.open && u != v && u != x && u != y && v != x && v != y && x != y
    requires b.Blockers(u) == {} && b.Blockers(v) == {} && b.Blockers(x) != {} && b.Blockers(y) != {}
    requires InOrder(order, u) == [x] && InOrder(order, v) == [y] && InOrder(order, x) == [y] && InOrder(order, y) == [x]
    ensures ListFrom(b, order, map[], [u, v, x, y]).1 == [Path(3, [u, x, y]), Path(2, [v, y])]
  {
    IntoKnot(b, order, u, x, y);
    ListSnoc(b, order, map[], [], u);
    ListSnoc(b, order, map[], [u], v);
    ListSnoc(b, order, map[], [u, v], x);
    ListSnoc(b, order, map[], [u, v, x], y);
    assert [] + [u] == [u] && [u] + [v] == [u, v] && [u, v] + [x] == [u, v, x] && [u, v, x] + [y] == [u, v, x, y];
    AfterKnot(b, order, ListFrom(b, order, map[], [u]).0, v, y);
  }

  /** On the knot the search lists the root it visits first with three tickets and the other with two,
      although each starts a chain of three. */
  lemma VisitingOrderShows()
    ensures Knot().Valid() && Visits(Knot(), KNOT_ORDER)
    ensures ListFrom(Knot(), KNOT_ORDER, map[], ["r", "s", "x", "y"]).1 == [Path(3, ["r", "x", "y"]), Path(2, ["s", "y"])]
    ensures ListFrom(Knot(), KNOT_ORDER, map[], ["s", "r", "y", "x"]).1 == [Path(3, ["s", "y", "x"]), Path(2, ["r", "x"])]
  {
    assert "r" in Knot().Blockers("x") && "s" in Knot().Blockers("y");
    KnotListing(Knot(), KNOT_ORDER, "r", "s", "x", "y");
    KnotListing(Knot(), KNOT_ORDER, "s", "r", "y", "x");
  }

  // ---------------------------------------------------------------------------------------------
  // Waves against critical paths
  // ---------------------------------------------------------------------------------------------

  /** Every chain has at most 81 tickets. */
  ghost predicate ShortChains(b: Board) {
    forall c :: Chain(b, c) ==> |c| <= 81
  }

  /** When every chain fits the limit nothing is stuck and no chain has more tickets than waves. */
  lemma NoChainOutlastsWaves(b: Board, waves: seq<set<Ticket>>, stuck: set<Ticket>)
    requires WavePlan(b, waves, stuck) && ShortChains(b)
    ensures stuck == {}
    ensures forall d :: Chain(b, d) ==> |d| <= |waves|
  {
    forall w | w in b.open
      ensures w !in stuck
    {
      StuckIffLongChain(b, waves, stuck, w);
    }
    forall d | Chain(b, d)
      ensures |d| <= |waves|
    {
      assert waves[..|waves|] == waves;
      var i := InUnion(waves, |waves|, d[|d| - 1]);
      PlacedBoundsChains(b, waves, stuck, i, d);
    }
  }

  lemma LongestStartsAtRoot(b: Board, c: seq<Ticket>)
    requires Chain(b, c) && forall d :: Chain(b, d) ==> |d| <= |c|
    ensures Root(b, c[0])
  {
    if x :| x in b.Blockers(c[0]) {
      JoinChains(b, [x], c);
    }
  }

  /** Some chain from an unblocked ticket then has exactly one ticket per wave. */
  lemma ChainSpansWaves(b: Board, waves: seq<set<Ticket>>, stuck: set<Ticket>) returns (c: seq<Ticket>)
    requires WavePlan(b, waves, stuck) && ShortChains(b) && waves != []
    ensures Chain(b, c) && |c| == |waves| && Root(b, c[0])
  {
    var n := |waves| - 1;
    var w :| w in waves[n];
    c := UnplacedHasChain(b, waves, n, w);
    NoChainOutlastsWaves(b, waves, stuck);
    LongestStartsAtRoot(b, c);
  }

  /** Nothing is stuck exactly when no chain has more than 81 tickets; the graph is then acyclic. */
  lemma NothingStuckExactly(b: Board, waves: seq<set<Ticket>>, stuck: set<Ticket>)
    requires WavePlan(b, waves, stuck)
    ensures stuck == {} <==> ShortChains(b)
    ensures ShortChains(b) ==> Acyclic(b)
  {
    if ShortChains(b) {
      NoChainOutlastsWaves(b, waves, stuck);
      ShortIsAcyclic(b);
    } else {
      var c :| Chain(b, c) && |c| > WAVE_LIMIT;
      var d := c[..WAVE_LIMIT + 1];
      SubChain(b, c, 0, WAVE_LIMIT + 1);
      assert d == c[0..WAVE_LIMIT + 1];
      assert ChainTo(b, d, d[WAVE_LIMIT]);
      StuckIffLongChain(b, waves, stuck, d[WAVE_LIMIT]);
    }
  }

  lemma ShortIsAcyclic(b: Board)
    requires ShortChains(b)
    ensures Acyclic(b)
  {
    if cycle :| Cycle(b, cycle) {
      var c := WindCycle(b, cycle, WAVE_LIMIT);
    }
  }

  /** When nothing is stuck the number of waves is the greatest listed length: when there are at least two waves some
      listed path has one ticket per wave and none is longer; with fewer waves nothing is listed. */
  lemma WavesEqualCriticalLength(b: Board, waves: seq<set<Ticket>>, stuck: set<Ticket>, paths: seq<Path>)
    requires b.Valid() && WavePlan(b, waves, stuck) && Listing(b, paths)
    requires stuck == {}
    ensures forall r :: r in paths ==> r.length <= |waves|
    ensures |waves| >= 2 ==> exists r :: r in paths && r.length == |waves|
    ensures |waves| < 2 ==> paths == []
  {
    assert paths != [] ==> paths[0] in paths;
    NothingStuckExactly(b, waves, stuck);
    NoChainOutlastsWaves(b, waves, stuck);
    forall r | r in paths
      ensures 1 < r.length <= |waves|
    {
      assert Chain(b, r.chain);
    }
    if |waves| >= 2 {
      var c := ChainSpansWaves(b, waves, stuck);
      KidsMirrorBlockers(b, c[0], c[1]);
      assert Listed(b, paths, c[0]) && ChainFrom(b, c, c[0]);
      assert !ReachesCycle(b, c[0]);
    }
  }

  /** The elements of a set, in some order. */
  method Enumerate(s: set<Ticket>) returns (l: seq<Ticket>)
    ensures Distinct(l) && forall w :: w in l <==> w in s
  {
    l := [];
    var todo := s;
    while todo != {}
      invariant todo <= s && Distinct(l) && forall w :: w in l <==> w in s - todo
      decreases todo
    {
      var w :| w in todo;
      DistinctSnoc(l, w);
      l, todo := l + [w], todo - {w};
    }
  }

  method ChooseOrder(b: Board, tickets: seq<Ticket>) returns (order: VisitOrder)
    requires forall w :: w in tickets <==> w in b.open
    ensures Visits(b, order)
  {
    order := map[];
    for i := 0 to |tickets|
      invariant forall w, c :: w in tickets[..i] ==> (c in InOrder(order, w) <==> c in b.Kids(w))
    {
      var kids := Enumerate(b.Kids(tickets[i]));
      order := order[tickets[i] := kids];
    }
    assert tickets[..|tickets|] == tickets;
  }

  /** The whole planner: from edge requests to waves, stuck tickets and critical paths. */
  method BuildPlan(tickets: set<Ticket>, open: set<Ticket>, requests: seq<Edge>)
    returns (b: Board, waves: seq<set<Ticket>>, stuck: set<Ticket>, paths: seq<Path>)
    ensures b.Valid() && b.open == open
    ensures BuiltFrom(b.blockedBy, tickets, requests)
    ensures WavePlan(b, waves, stuck) && Listing(b, paths)
    ensures stuck == {} && |waves| >= 2 ==> exists r :: r in paths && r.length == |waves|
    ensures stuck == {} ==> forall r :: r in paths ==> r.length <= |waves|
  {
    var maps := BuildEdges(tickets, requests);
    b := Board(open, maps.blockedBy, maps.blocks);
    waves, stuck := ComputeWaves(b);
    var visited := Enumerate(open);
    var order := ChooseOrder(b, visited);
    var search := new Search(b, order);
    paths := search.CriticalPaths(visited);
    if stuck == {} {
      WavesEqualCriticalLength(b, waves, stuck, paths);
    }
  }
}
