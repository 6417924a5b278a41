/** The `path` command: everything a ticket transitively blocks, printed breadth-first. */
module Descendants {
  import opened Basics
  import opened TicketGraph

  /** The stored edges: a list of blocked tickets per ticket. */
  type EdgeLists = map<Ticket, seq<Ticket>>

  function Children(blocks: EdgeLists, w: Ticket): seq<Ticket> {
    if w in blocks then blocks[w] else []
  }

  /** `w` can be reached from `start` by exactly `n` edges. */
  ghost predicate ReachedIn(blocks: EdgeLists, start: Ticket, w: Ticket, n: nat)
    decreases n
  {
    if n == 0 then w == start
    else exists x :: ReachedIn(blocks, start, x, n - 1) && w in Children(blocks, x)
  }

  ghost predicate Descendant(blocks: EdgeLists, start: Ticket, w: Ticket) {
    exists n :: n > 0 && ReachedIn(blocks, start, w, n)
  }

  ghost predicate ReachedWithin(blocks: EdgeLists, start: Ticket, w: Ticket, n: nat) {
    exists m :: 0 < m <= n && ReachedIn(blocks, start, w, m)
  }

  /** Whatever is reached by a walk of `n` edges, everything printed before it is reached by at most `n`. */
  ghost predicate NearestFirst(blocks: EdgeLists, start: Ticket, printed: seq<Ticket>) {
    forall i, j, n: nat :: 0 <= i < j < |printed| && n > 0 && ReachedIn(blocks, start, printed[j], n) ==>
                             ReachedWithin(blocks, start, printed[i], n)
  }

  /** Every ticket that occurs in some list. */
  ghost function Targets(blocks: EdgeLists): set<Ticket> {
    set k, c | k in blocks && c in blocks[k] :: c
  }

  /** `c` was queued at a level of at most `bound`. */
  ghost predicate Queued(order: seq<Ticket>, level: seq<nat>, c: Ticket, bound: nat)
    requires |order| == |level|
  {
    exists j :: 0 < j < |order| && order[j] == c && level[j] <= bound
  }

  /** Breadth-first levels: they never fall, from `head` on they span at most one step, and only the
      start has level 0. */
  ghost predicate LevelsOk(level: seq<nat>, head: nat) {
    && level != [] && head <= |level|
    && (forall i, j :: 0 <= i < j < |level| ==> level[i] <= level[j])
    && (head < |level| ==> level[|level| - 1] <= level[head] + 1)
    && (forall k :: 0 <= k < |level| ==> (level[k] == 0 <==> k == 0))
  }

  /** `order` is the start followed by what was printed; each level is the length of a walk. */
  ghost predicate Levelled(blocks: EdgeLists, order: seq<Ticket>, level: seq<nat>, head: nat) {
    && |order| == |level| && LevelsOk(level, head)
    && (forall k :: 0 <= k < |order| ==> ReachedIn(blocks, order[0], order[k], level[k]))
  }

  /** Every ticket before `head` has all its children queued. */
  ghost predicate Expanded(blocks: EdgeLists, order: seq<Ticket>, level: seq<nat>, head: nat)
    requires |order| == |level| && head <= |order|
  {
    forall k, c :: 0 <= k < head && c in Children(blocks, order[k]) ==> Queued(order, level, c, level[k] + 1)
  }

  /** Prints each ticket reachable by one or more edges exactly once, nearest first; the start itself
      is among them exactly when it lies on a cycle. */
  method PathFrom(blocks: EdgeLists, start: Ticket) returns (printed: seq<Ticket>)
    ensures Distinct(printed)
    ensures forall w :: w in printed <==> Descendant(blocks, start, w)
    ensures NearestFirst(blocks, start, printed)
  {
    var seen: set<Ticket> := {};
    var q := [start];
    printed := [];
    ghost var level: seq<nat>, head := [0], 0;
    while q != []
      invariant head <= |printed| + 1 && q == ([start] + printed)[head..]
      invariant Front(blocks, start, printed, seen, level, head)
      decreases Targets(blocks) - seen, |q|
    {
      var w := q[0];
      q := q[1..];
      level := Advance(blocks, start, w, printed, seen, level, head);
      QueueAppend([start], printed, Unseen(Children(blocks, w), seen), head + 1);
      seen, q, printed := Expand(Children(blocks, w), seen, q, printed);
      head := head + 1;
    }
    Complete(blocks, [start] + printed, level);
    assert printed == ([start] + printed)[1..];
  }

  /** Between two tickets of the queue: every ticket before `head` is expanded. */
  ghost predicate Front(blocks: EdgeLists, start: Ticket, printed: seq<Ticket>, seen: set<Ticket>, level: seq<nat>, head: nat) {
    && head <= |printed| + 1 && Levelled(blocks, [start] + printed, level, head)
    && Expanded(blocks, [start] + printed, level, head) && Tracked(blocks, printed, seen)
  }

  lemma Advance(blocks: EdgeLists, start: Ticket, w: Ticket, printed0: seq<Ticket>, seen0: set<Ticket>,
                level0: seq<nat>, head: nat) returns (level: seq<nat>)
    requires head <= |printed0| && w == ([start] + printed0)[head] && Front(blocks, start, printed0, seen0, level0, head)
    ensures var added, seen := Unseen(Children(blocks, w), seen0), SeenAfter(seen0, Children(blocks, w));
            && Front(blocks, start, printed0 + added, seen, level, head + 1)
            && seen <= Targets(blocks) && (added == [] ==> seen == seen0) && (added != [] ==> seen0 < seen)
  {
    var added, seen := Unseen(Children(blocks, w), seen0), SeenAfter(seen0, Children(blocks, w));
    level := ExpandLevels(blocks, start, w, printed0, seen0, level0, head);
    FinishExpansion(blocks, [start] + (printed0 + added), level, head);
    if added == [] {
      assert printed0 + added == printed0;
    } else {
      NewTicket(blocks, printed0, seen0, printed0 + added, seen);
    }
  }

  lemma QueueAppend<T>(first: seq<T>, there: seq<T>, more: seq<T>, n: nat)
    requires n <= |first| + |there|
    ensures (first + (there + more))[n..] == (first + there)[n..] + more
  {
  }

  /** Nothing is printed twice and `seen` is what was printed, all of it the target of some edge. */
  ghost predicate Tracked(blocks: EdgeLists, printed: seq<Ticket>, seen: set<Ticket>) {
    Distinct(printed) && seen <= Targets(blocks) && forall w :: w in seen <==> w in printed
  }

  lemma TrackedAppend(blocks: EdgeLists, printed: seq<Ticket>, seen: set<Ticket>, w: Ticket, c: Ticket)
    requires Tracked(blocks, printed, seen) && c in Children(blocks, w) && c !in seen
    ensures Tracked(blocks, printed + [c], seen + {c})
  {
  }

  lemma NewTicket(blocks: EdgeLists, printed0: seq<Ticket>, seen0: set<Ticket>, printed: seq<Ticket>, seen: set<Ticket>)
    requires Tracked(blocks, printed0, seen0) && Tracked(blocks, printed, seen)
    requires printed0 < printed && seen0 <= seen
    ensures seen0 < seen
  {
    assert printed[|printed0|] in seen;
  }

  /** The tickets of a list that are not in `seen`, each where it first occurs. */
  function Unseen(children: seq<Ticket>, seen: set<Ticket>): seq<Ticket> {
    if children == [] then []
    else
      var n := |children| - 1;
      Unseen(children[..n], seen) + if children[n] in seen || children[n] in children[..n] then [] else [children[n]]
  }

  function SeenAfter(seen: set<Ticket>, children: seq<Ticket>): set<Ticket> {
    seen + set c | c in children
  }

  lemma UnseenNext(children: seq<Ticket>, i: nat, seen: set<Ticket>)
    requires i < |children|
    ensures var c := children[i];
            && SeenAfter(seen, children[..i + 1]) == SeenAfter(seen, children[..i]) + {c}
            && Unseen(children[..i + 1], seen) ==
               Unseen(children[..i], seen) + if c in SeenAfter(seen, children[..i]) then [] else [c]
  {
    assert children[..i + 1] == children[..i] + [children[i]];
    assert children[..i + 1][..i] == children[..i];
  }

  /** The inner loop: queue and print the children that were not seen before. */
  method Expand(children: seq<Ticket>, seen0: set<Ticket>, q0: seq<Ticket>, printed0: seq<Ticket>)
    returns (seen: set<Ticket>, q: seq<Ticket>, printed: seq<Ticket>)
    ensures seen == SeenAfter(seen0, children)
    ensures q == q0 + Unseen(children, seen0) && printed == printed0 + Unseen(children, seen0)
  {
    seen, q, printed := seen0, q0, printed0;
    for i := 0 to |children|
      invariant seen == SeenAfter(seen0, children[..i])
      invariant q == q0 + Unseen(children[..i], seen0) && printed == printed0 + Unseen(children[..i], seen0)
    {
      UnseenNext(children, i, seen0);
      if children[i] !in seen {
        seen, q, printed := seen + {children[i]}, q + [children[i]], printed + [children[i]];
      }
    }
    assert children[..|children|] == children;
  }

  /** The state after the first `i` children of `w`, the ticket at `head`. */
  ghost predicate Midway(blocks: EdgeLists, start: Ticket, w: Ticket, printed: seq<Ticket>, seen: set<Ticket>,
                         level: seq<nat>, head: nat, i: nat)
  {
    && head <= |printed| && ([start] + printed)[head] == w
    && MidExpansion(blocks, [start] + printed, level, head, i) && Tracked(blocks, printed, seen)
  }

  lemma ExpandChild(blocks: EdgeLists, start: Ticket, w: Ticket, printed0: seq<Ticket>, seen0: set<Ticket>,
                    level0: seq<nat>, head: nat, i: nat) returns (level: seq<nat>)
    requires i < |Children(blocks, w)| && Midway(blocks, start, w, printed0, seen0, level0, head, i)
    ensures var c := Children(blocks, w)[i];
            Midway(blocks, start, w, printed0 + if c in seen0 then [] else [c], seen0 + {c}, level, head, i + 1)
  {
    var c := Children(blocks, w)[i];
    if c in seen0 {
      AlreadyQueued(blocks, start, printed0, level0, head, i);
      assert printed0 + [] == printed0 && seen0 + {c} == seen0;
      level := level0;
    } else {
      NewChild(blocks, start, printed0, level0, head, i);
      TrackedAppend(blocks, printed0, seen0, w, c);
      level := level0 + [level0[head] + 1];
    }
  }

  ghost predicate MidwayAt(blocks: EdgeLists, start: Ticket, w: Ticket, printed0: seq<Ticket>, seen0: set<Ticket>,
                           head: nat, children: seq<Ticket>)
  {
    exists level :: Midway(blocks, start, w, printed0 + Unseen(children, seen0), SeenAfter(seen0, children), level,
                           head, |children|)
  }

  lemma MidwayNext(blocks: EdgeLists, start: Ticket, w: Ticket, printed0: seq<Ticket>, seen0: set<Ticket>, head: nat, i: nat)
    requires i < |Children(blocks, w)| && MidwayAt(blocks, start, w, printed0, seen0, head, Children(blocks, w)[..i])
    ensures MidwayAt(blocks, start, w, printed0, seen0, head, Children(blocks, w)[..i + 1])
  {
    var children := Children(blocks, w);
    var printed, seen := printed0 + Unseen(children[..i], seen0), SeenAfter(seen0, children[..i]);
    var level :| Midway(blocks, start, w, printed, seen, level, head, i);
    var level' := ExpandChild(blocks, start, w, printed, seen, level, head, i);
    UnseenNext(children, i, seen0);
    Regroup(printed0, Unseen(children[..i], seen0), if children[i] in seen then [] else [children[i]]);
  }

  /** Expanding a ticket keeps the breadth-first levels. */
  lemma ExpandLevels(blocks: EdgeLists, start: Ticket, w: Ticket, printed0: seq<Ticket>, seen0: set<Ticket>,
                     level0: seq<nat>, head: nat) returns (level: seq<nat>)
    requires Midway(blocks, start, w, printed0, seen0, level0, head, 0)
    ensures var children := Children(blocks, w);
            Midway(blocks, start, w, printed0 + Unseen(children, seen0), SeenAfter(seen0, children), level, head, |children|)
  {
    var children := Children(blocks, w);
    var holds := (i: nat) => i <= |children| && MidwayAt(blocks, start, w, printed0, seen0, head, children[..i]);
    assert children[..0] == [] && printed0 + Unseen([], seen0) == printed0 && SeenAfter(seen0, []) == seen0;
    assert Midway(blocks, start, w, printed0 + Unseen(children[..0], seen0), SeenAfter(seen0, children[..0]), level0, head, 0);
    forall i | 0 <= i < |children| && holds(i)
      ensures holds(i + 1)
    {
      MidwayNext(blocks, start, w, printed0, seen0, head, i);
    }
    Persists(holds, 0, |children|);
    assert children[..|children|] == children;
    level :| Midway(blocks, start, w, printed0 + Unseen(children, seen0), SeenAfter(seen0, children), level, head, |children|);
  }

  /** The first `done` children of the ticket at `head` are queued, and all children of earlier ones. */
  ghost predicate MidExpansion(blocks: EdgeLists, order: seq<Ticket>, level: seq<nat>, head: nat, done: nat) {
    && Levelled(blocks, order, level, head) && head < |order| && Expanded(blocks, order, level, head)
    && done <= |Children(blocks, order[head])|
    && forall m :: 0 <= m < done ==> Queued(order, level, Children(blocks, order[head])[m], level[head] + 1)
  }

  lemma FinishExpansion(blocks: EdgeLists, order: seq<Ticket>, level: seq<nat>, head: nat)
    requires head < |order| && MidExpansion(blocks, order, level, head, |Children(blocks, order[head])|)
    ensures Levelled(blocks, order, level, head + 1) && Expanded(blocks, order, level, head + 1)
  {
  }

  lemma LevelsAppend(level: seq<nat>, head: nat)
    requires LevelsOk(level, head) && head < |level|
    ensures LevelsOk(level + [level[head] + 1], head)
  {
  }

  lemma LevelledAppend(blocks: EdgeLists, order: seq<Ticket>, level: seq<nat>, head: nat, c: Ticket)
    requires Levelled(blocks, order, level, head) && head < |order| && c in Children(blocks, order[head])
    ensures Levelled(blocks, order + [c], level + [level[head] + 1], head)
  {
    LevelsAppend(level, head);
    var order', level' := order + [c], level + [level[head] + 1];
    assert ReachedIn(blocks, order[0], c, level[head] + 1);
    forall k | 0 <= k < |order'|
      ensures ReachedIn(blocks, order'[0], order'[k], level'[k])
    {
      if k < |order| {
        assert order'[k] == order[k] && level'[k] == level[k];
      }
    }
  }

  lemma QueuedAppend(order: seq<Ticket>, level: seq<nat>, c: Ticket, l: nat, x: Ticket, n: nat)
    requires |order| == |level| && Queued(order, level, x, n)
    ensures Queued(order + [c], level + [l], x, n)
  {
    var j :| 0 < j < |order| && order[j] == x && level[j] <= n;
    assert (order + [c])[j] == x;
  }

  lemma Append(blocks: EdgeLists, order: seq<Ticket>, level: seq<nat>, head: nat, i: nat)
    requires MidExpansion(blocks, order, level, head, i) && i < |Children(blocks, order[head])|
    ensures var c := Children(blocks, order[head])[i];
            MidExpansion(blocks, order + [c], level + [level[head] + 1], head, i + 1)
  {
    var children := Children(blocks, order[head]);
    var c := children[i];
    var order', level' := order + [c], level + [level[head] + 1];
    LevelledAppend(blocks, order, level, head, c);
    assert Expanded(blocks, order', level', head) by {
      forall k, x | 0 <= k < head && x in Children(blocks, order'[k])
        ensures Queued(order', level', x, level'[k] + 1)
      {
        assert order'[k] == order[k];
        QueuedAppend(order, level, c, level[head] + 1, x, level[k] + 1);
      }
    }
    forall m | 0 <= m < i + 1
      ensures Queued(order', level', children[m], level'[head] + 1)
    {
      if m < i {
        QueuedAppend(order, level, c, level[head] + 1, children[m], level[head] + 1);
      } else {
        assert order'[|order|] == c;
      }
    }
  }

  lemma NewChild(blocks: EdgeLists, start: Ticket, printed: seq<Ticket>, level: seq<nat>, head: nat, i: nat)
    requires MidExpansion(blocks, [start] + printed, level, head, i)
    requires i < |Children(blocks, ([start] + printed)[head])|
    ensures var w := ([start] + printed)[head];
            var c := Children(blocks, w)[i];
            var order := [start] + (printed + [c]);
            && MidExpansion(blocks, order, level + [level[head] + 1], head, i + 1)
            && order[head] == w
  {
    var c := Children(blocks, ([start] + printed)[head])[i];
    Append(blocks, [start] + printed, level, head, i);
    assert [start] + printed + [c] == [start] + (printed + [c]);
  }

  lemma AlreadyQueued(blocks: EdgeLists, start: Ticket, printed: seq<Ticket>, level: seq<nat>, head: nat, i: nat)
    requires MidExpansion(blocks, [start] + printed, level, head, i)
    requires i < |Children(blocks, ([start] + printed)[head])| && Children(blocks, ([start] + printed)[head])[i] in printed
    ensures MidExpansion(blocks, [start] + printed, level, head, i + 1)
  {
    var c := Children(blocks, ([start] + printed)[head])[i];
    var j :| 0 <= j < |printed| && printed[j] == c;
    assert ([start] + printed)[j + 1] == c;
  }

  /** A walk of `n` edges ends at a ticket whose level is at most `n`. */
  lemma {:induction false} WalkBoundsLevel(blocks: EdgeLists, order: seq<Ticket>, level: seq<nat>, w: Ticket, n: nat)
    requires Levelled(blocks, order, level, |order|) && Expanded(blocks, order, level, |order|)
    requires n > 0 && ReachedIn(blocks, order[0], w, n)
    ensures Queued(order, level, w, n)
    decreases n
  {
    var x :| ReachedIn(blocks, order[0], x, n - 1) && w in Children(blocks, x);
    var k := 0;
    if n > 1 {
      WalkBoundsLevel(blocks, order, level, x, n - 1);
      k :| 0 < k < |order| && order[k] == x && level[k] <= n - 1;
    }
    assert Queued(order, level, w, level[k] + 1);
  }

  lemma Complete(blocks: EdgeLists, order: seq<Ticket>, level: seq<nat>)
    requires Levelled(blocks, order, level, |order|) && Expanded(blocks, order, level, |order|)
    requires Distinct(order[1..])
    ensures forall w :: w in order[1..] <==> Descendant(blocks, order[0], w)
    ensures NearestFirst(blocks, order[0], order[1..])
  {
    forall w
      ensures w in order[1..] <==> Descendant(blocks, order[0], w)
    {
      PrintedIffDescendant(blocks, order, level, w);
    }
    var printed := order[1..];
    forall i, j, n: nat | 0 <= i < j < |printed| && n > 0 && ReachedIn(blocks, order[0], printed[j], n)
      ensures ReachedWithin(blocks, order[0], printed[i], n)
    {
      EarlierIsNearer(blocks, order, level, i, j, n);
    }
  }

  lemma PrintedIffDescendant(blocks: EdgeLists, order: seq<Ticket>, level: seq<nat>, w: Ticket)
    requires Levelled(blocks, order, level, |order|) && Expanded(blocks, order, level, |order|)
    ensures w in order[1..] <==> Descendant(blocks, order[0], w)
  {
    if w in order[1..] {
      var j :| 0 <= j < |order[1..]| && order[1..][j] == w;
      assert ReachedIn(blocks, order[0], order[j + 1], level[j + 1]);
    }
    if Descendant(blocks, order[0], w) {
      var n :| n > 0 && ReachedIn(blocks, order[0], w, n);
      WalkBoundsLevel(blocks, order, level, w, n);
      var k :| 0 < k < |order| && order[k] == w && level[k] <= n;
      assert order[1..][k - 1] == w;
    }
  }

  lemma PrintedOnce(order: seq<Ticket>, j: nat, k: nat)
    requires order != [] && Distinct(order[1..]) && 0 < j < |order| && 0 < k < |order| && order[j] == order[k]
    ensures j == k
  {
    assert order[1..][j - 1] == order[1..][k - 1];
  }

  lemma LevelIsLeast(blocks: EdgeLists, order: seq<Ticket>, level: seq<nat>, j: nat, n: nat)
    requires Levelled(blocks, order, level, |order|) && Expanded(blocks, order, level, |order|)
    requires Distinct(order[1..]) && 0 < j < |order| && n > 0 && ReachedIn(blocks, order[0], order[j], n)
    ensures level[j] <= n
  {
    WalkBoundsLevel(blocks, order, level, order[j], n);
    var k :| 0 < k < |order| && order[k] == order[j] && level[k] <= n;
    PrintedOnce(order, j, k);
  }

  lemma EarlierIsNearer(blocks: EdgeLists, order: seq<Ticket>, level: seq<nat>, i: nat, j: nat, n: nat)
    requires Levelled(blocks, order, level, |order|) && Expanded(blocks, order, level, |order|)
    requires Distinct(order[1..]) && i < j < |order[1..]| && n > 0 && ReachedIn(blocks, order[0], order[1..][j], n)
    ensures ReachedWithin(blocks, order[0], order[1..][i], n)
  {
    LevelIsLeast(blocks, order, level, j + 1, n);
    var m := level[i + 1];
    assert 0 < m <= n && ReachedIn(blocks, order[0], order[i + 1], m);
  }
}
