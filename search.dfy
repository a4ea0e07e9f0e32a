/** The A* search engine: cost maps, relaxation, path walk-back and the search loop. */
module Search {
  import opened Grid
  import opened OpenSet

  /** A cost from the start or an estimate; Inf stands for an unreached cell. */
  datatype Cost = Fin(v: nat) | Inf

  /** x < c, where every natural number is below Inf. */
  predicate Below(x: nat, c: Cost) { c.Inf? || x < c.v }

  /** c <= d, where Inf is above every natural number. */
  predicate AtMost(c: Cost, d: Cost) { d.Inf? || (c.Fin? && c.v <= d.v) }

  function Plus(c: Cost, h: nat): Cost { if c.Inf? then Inf else Fin(c.v + h) }

  /** The three dictionaries of one search: g_score, f_score and came_from. */
  datatype Scores = Scores(g: map<Node, Cost>, f: map<Node, Cost>, cameFrom: map<Node, Node>)

  /** Stepping from current to nb is strictly cheaper than nb's best known cost. */
  predicate Improves(s: Scores, current: Node, nb: Node)
    requires current in s.g && s.g[current].Fin? && nb in s.g
  {
    Below(s.g[current].v + 1, s.g[nb])
  }

  /** Relaxes the edge from current to nb: only on a strict improvement, nb gets
      current as predecessor, cost g[current] + 1 and the matching f; nothing
      else changes and no cost goes up. */
  function Relax(s: Scores, current: Node, nb: Node, goal: Pos): (r: Scores)
    requires current in s.g && s.g[current].Fin? && nb in s.g && nb in s.f
    ensures r.g.Keys == s.g.Keys && r.f.Keys == s.f.Keys
    ensures r.cameFrom.Keys == s.cameFrom.Keys + (if Improves(s, current, nb) then {nb} else {})
    ensures Improves(s, current, nb) ==>
      && r.cameFrom[nb] == current
      && r.g[nb] == Fin(s.g[current].v + 1)
      && r.f[nb] == Plus(r.g[nb], Heuristic(nb.GetPos(), goal))
    ensures !Improves(s, current, nb) ==> r == s
    ensures forall n :: n in s.g && n != nb ==> r.g[n] == s.g[n]
    ensures forall n :: n in s.f && n != nb ==> r.f[n] == s.f[n]
    ensures forall n :: n in s.cameFrom && n != nb ==> r.cameFrom[n] == s.cameFrom[n]
    ensures forall n :: n in s.g ==> AtMost(r.g[n], s.g[n])
    ensures r.g[nb].Fin?
  {
    var tentative := s.g[current].v + 1;
    if Below(tentative, s.g[nb]) then
      Scores(s.g[nb := Fin(tentative)],
             s.f[nb := Fin(tentative + Heuristic(nb.GetPos(), goal))],
             s.cameFrom[nb := current])
    else
      s
  }

  /** Every came_from link points to a strictly cheaper cell. */
  ghost predicate ChainOrdered(cameFrom: map<Node, Node>, g: map<Node, Cost>) {
    forall c {:trigger cameFrom[c]} :: c in cameFrom ==>
      c in g && cameFrom[c] in g && g[c].Fin? && g[cameFrom[c]].Fin? &&
      g[cameFrom[c]].v < g[c].v
  }

  /** n has a finite cost in g. */
  ghost predicate Reached(g: map<Node, Cost>, n: Node)
    requires n in g
  {
    g[n].Fin?
  }

  /** b is in a's neighbour list, as recorded in the snapshot adj. */
  ghost predicate Edge(adj: map<Node, seq<Node>>, a: Node, b: Node) {
    a in adj && b in adj[a]
  }

  /** The step from p[i] to p[i + 1] follows an edge of adj. */
  ghost predicate PathStep(adj: map<Node, seq<Node>>, p: seq<Node>, i: int)
    requires 0 <= i < |p| - 1
  {
    Edge(adj, p[i], p[i + 1])
  }

  /** adj records the neighbour list of every cell. */
  ghost predicate Snapshot(cells: set<Node>, adj: map<Node, seq<Node>>)
    reads cells`neighbors
  {
    adj.Keys == cells && forall n :: n in cells ==> adj[n] == n.neighbors
  }

  /** The invariant of the three maps during a search from start, over the
      neighbour lists recorded in adj. */
  ghost predicate SearchTree(s: Scores, cells: set<Node>, adj: map<Node, seq<Node>>, start: Node) {
    && s.g.Keys == cells && s.f.Keys == cells && s.cameFrom.Keys <= cells
    && start in cells && s.g[start] == Fin(0) && start !in s.cameFrom
    && ChainOrdered(s.cameFrom, s.g)
    && (forall c {:trigger s.cameFrom[c]} :: c in s.cameFrom ==>
          s.cameFrom[c] in cells && Edge(adj, s.cameFrom[c], c))
    && (forall n {:trigger Reached(s.g, n)} :: n in cells && Reached(s.g, n) ==>
          n == start || n in s.cameFrom)
  }

  /** Every f score is the cell's g score plus its heuristic distance to goal. */
  ghost predicate Estimates(s: Scores, cells: set<Node>, goal: Pos) {
    && s.g.Keys == cells && s.f.Keys == cells
    && forall n :: n in cells ==> s.f[n] == Plus(s.g[n], Heuristic(n.GetPos(), goal))
  }

  /** Relaxing any edge keeps f = g + h. */
  lemma RelaxKeepsEstimates(s: Scores, cells: set<Node>, goal: Pos, current: Node, nb: Node)
    requires Estimates(s, cells, goal) && current in cells && s.g[current].Fin? && nb in cells
    ensures Estimates(Relax(s, current, nb, goal), cells, goal)
  {
  }

  /** Relaxing an edge of the neighbour relation keeps the search tree invariant. */
  lemma RelaxKeepsTree(s: Scores, cells: set<Node>, adj: map<Node, seq<Node>>, start: Node, goal: Pos,
                       current: Node, nb: Node)
    requires SearchTree(s, cells, adj, start)
    requires current in cells && s.g[current].Fin? && Edge(adj, current, nb) && nb in cells
    ensures SearchTree(Relax(s, current, nb, goal), cells, adj, start)
  {
    var r := Relax(s, current, nb, goal);
    if Improves(s, current, nb) {
      assert nb != start && nb != current;
      forall c | c in r.cameFrom
        ensures c in r.g && r.cameFrom[c] in r.g && r.g[c].Fin? && r.g[r.cameFrom[c]].Fin?
        ensures r.g[r.cameFrom[c]].v < r.g[c].v
      {
        if c != nb {
          assert r.cameFrom[c] == s.cameFrom[c];
        }
      }
      forall n | n in cells && Reached(r.g, n) ensures n == start || n in r.cameFrom {
        if n != nb {
          assert Reached(s.g, n);
        }
      }
    }
  }

  /** Relaxes the edges from current to each cell of ns, in list order. */
  function RelaxAll(s: Scores, current: Node, ns: seq<Node>, goal: Pos): (r: Scores)
    requires current in s.g && s.g[current].Fin?
    requires forall nb :: nb in ns ==> nb in s.g && nb in s.f
    ensures r.g.Keys == s.g.Keys && r.f.Keys == s.f.Keys && r.g[current] == s.g[current]
    ensures forall n :: n in s.g ==> AtMost(r.g[n], s.g[n])
    ensures forall n :: n in s.g && n !in ns ==> r.g[n] == s.g[n]
    ensures forall nb :: nb in ns ==> r.g[nb].Fin?
    decreases |ns|
  {
    if ns == [] then s
    else
      var init, last := ns[..|ns| - 1], ns[|ns| - 1];
      assert forall nb :: nb in init ==> nb in ns;
      assert forall nb :: nb in ns ==> nb in init || nb == last;
      var r0 := RelaxAll(s, current, init, goal);
      Relax(r0, current, last, goal)
  }

  /** Relaxing a list of edges out of current keeps the search tree invariant. */
  lemma {:induction false} RelaxAllKeepsTree(s: Scores, cells: set<Node>, adj: map<Node, seq<Node>>,
                                             start: Node, goal: Pos, current: Node, ns: seq<Node>)
    requires SearchTree(s, cells, adj, start) && current in cells && s.g[current].Fin?
    requires forall nb :: nb in ns ==> nb in cells && Edge(adj, current, nb)
    ensures SearchTree(RelaxAll(s, current, ns, goal), cells, adj, start)
    decreases |ns|
  {
    if ns != [] {
      var init := ns[..|ns| - 1];
      assert forall nb :: nb in init ==> nb in ns;
      RelaxAllKeepsTree(s, cells, adj, start, goal, current, init);
      RelaxKeepsTree(RelaxAll(s, current, init, goal), cells, adj, start, goal, current, ns[|ns| - 1]);
    }
  }

  /** Relaxing a list of edges keeps f = g + h. */
  lemma {:induction false} RelaxAllKeepsEstimates(s: Scores, cells: set<Node>, goal: Pos, current: Node,
                                                  ns: seq<Node>)
    requires Estimates(s, cells, goal) && current in cells && s.g[current].Fin?
    requires forall nb :: nb in ns ==> nb in cells
    ensures Estimates(RelaxAll(s, current, ns, goal), cells, goal)
    decreases |ns|
  {
    if ns != [] {
      var init := ns[..|ns| - 1];
      assert forall nb :: nb in init ==> nb in ns;
      RelaxAllKeepsEstimates(s, cells, goal, current, init);
      RelaxKeepsEstimates(RelaxAll(s, current, init, goal), cells, goal, current, ns[|ns| - 1]);
    }
  }

  /** Cell p[i] has p[i - 1] as its came_from parent. */
  ghost predicate ParentStep(cameFrom: map<Node, Node>, p: seq<Node>, i: int)
    requires 0 < i < |p|
  {
    p[i] in cameFrom && cameFrom[p[i]] == p[i - 1]
  }

  /** The cells from start to n along came_from (n last). */
  ghost function PathTo(cameFrom: map<Node, Node>, g: map<Node, Cost>, n: Node): seq<Node>
    requires ChainOrdered(cameFrom, g) && n in g && g[n].Fin?
    decreases g[n].v
  {
    if n in cameFrom then PathTo(cameFrom, g, cameFrom[n]) + [n] else [n]
  }

  /** Following came_from from any reached cell ends at start, through cells of
      strictly lower cost than n, each of them its successor's came_from parent
      and each step an edge of the neighbour relation. */
  lemma {:induction false} PathToSpec(s: Scores, cells: set<Node>, adj: map<Node, seq<Node>>,
                                      start: Node, n: Node)
    requires SearchTree(s, cells, adj, start) && n in cells && s.g[n].Fin?
    ensures var p := PathTo(s.cameFrom, s.g, n);
      && |p| >= 1 && p[0] == start && p[|p| - 1] == n
      && (forall i :: 0 <= i < |p| ==> p[i] in cells && s.g[p[i]].Fin?)
      && (forall i :: 0 < i < |p| ==> ParentStep(s.cameFrom, p, i))
      && (forall i :: 0 <= i < |p| - 1 ==> PathStep(adj, p, i))
      && (forall i :: 0 <= i < |p| - 1 ==> s.g[p[i]].v < s.g[n].v)
    decreases s.g[n].v
  {
    var p := PathTo(s.cameFrom, s.g, n);
    if n in s.cameFrom {
      var m := s.cameFrom[n];
      PathToSpec(s, cells, adj, start, m);
      var q := PathTo(s.cameFrom, s.g, m);
      assert p == q + [n];
      forall i | 0 < i < |p| ensures ParentStep(s.cameFrom, p, i) {
        if i < |q| {
          assert ParentStep(s.cameFrom, q, i);
        }
      }
      forall i | 0 <= i < |p| - 1 ensures PathStep(adj, p, i) {
        if i < |q| - 1 {
          assert PathStep(adj, q, i);
        }
      }
      forall i | 0 <= i < |p| - 1 ensures s.g[p[i]].v < s.g[n].v {
        assert p[i] == q[i];
      }
    } else {
      assert Reached(s.g, n);
    }
  }

  /** The came_from links along PathTo: it ends at n, starts at a cell with no
      parent, and each cell after the first has its predecessor as parent. */
  lemma {:induction false} PathToLinks(cameFrom: map<Node, Node>, g: map<Node, Cost>, n: Node)
    requires ChainOrdered(cameFrom, g) && n in g && g[n].Fin?
    ensures var p := PathTo(cameFrom, g, n);
      && |p| >= 1 && p[|p| - 1] == n && p[0] !in cameFrom
      && (forall i :: 0 < i < |p| ==> ParentStep(cameFrom, p, i))
    decreases g[n].v
  {
    if n in cameFrom {
      var p := PathTo(cameFrom, g, n);
      var q := PathTo(cameFrom, g, cameFrom[n]);
      PathToLinks(cameFrom, g, cameFrom[n]);
      assert p == q + [n];
      forall i | 0 < i < |p| ensures ParentStep(cameFrom, p, i) {
        if i < |q| {
          assert ParentStep(cameFrom, q, i);
        }
      }
    }
  }

  /** Walks back along came_from from current, colouring every strict ancestor
      as path; the draw callback after each step is a no-op here. */
  method ReconstructPath(cameFrom: map<Node, Node>, current: Node, ghost g: map<Node, Cost>,
                         ghost cells: set<Node>)
    requires ChainOrdered(cameFrom, g) && current in g && g[current].Fin?
    requires forall c :: c in cameFrom ==> cameFrom[c] in cells
    modifies cells`color
    ensures var p := PathTo(cameFrom, g, current);
      forall n :: n in cells ==> n.color == if n in p[..|p| - 1] then Green else old(n.color)
  {
    ghost var p := PathTo(cameFrom, g, current);
    PathToLinks(cameFrom, g, current);
    ghost var k := |p| - 1;
    var node := current;
    while node in cameFrom
      invariant 0 <= k < |p| && node == p[k]
      invariant node in cameFrom <==> k > 0
      invariant forall n :: n in cells ==> n.color == if n in p[k..|p| - 1] then Green else old(n.color)
      decreases k
    {
      assert k > 0 && ParentStep(cameFrom, p, k);
      node := cameFrom[node];
      label before:
      node.SetPath();
      k := k - 1;
      if k > 0 {
        assert ParentStep(cameFrom, p, k);
      }
      assert p[k..|p| - 1] == [node] + p[k + 1..|p| - 1];
      forall n | n in cells ensures n.color == if n in p[k..|p| - 1] then Green else old(n.color) {
        if n != node {
          assert n.color == old@before(n.color);
        }
      }
    }
  }

  /** Number of unreached cells among ns. */
  ghost function Unreached(g: map<Node, Cost>, ns: seq<Node>): nat {
    if ns == [] then 0
    else (if ns[0] in g && g[ns[0]].Fin? then 0 else 1) + Unreached(g, ns[1..])
  }

  /** Sum of the finite costs among ns. */
  ghost function Spent(g: map<Node, Cost>, ns: seq<Node>): nat {
    if ns == [] then 0
    else (if ns[0] in g && g[ns[0]].Fin? then g[ns[0]].v else 0) + Spent(g, ns[1..])
  }

  /** g2 is below g1 in the lexicographic (unreached, spent) order over ns. */
  ghost predicate Lower(g2: map<Node, Cost>, g1: map<Node, Cost>, ns: seq<Node>) {
    Unreached(g2, ns) < Unreached(g1, ns) ||
    (Unreached(g2, ns) == Unreached(g1, ns) && Spent(g2, ns) < Spent(g1, ns))
  }

  /** Lowering one cost of a cell listed in ns lowers the measure. */
  lemma {:induction false} LowerOne(g: map<Node, Cost>, ns: seq<Node>, x: Node, c: nat)
    requires x in g && Below(c, g[x])
    ensures g[x].Inf? ==> Unreached(g[x := Fin(c)], ns) <= Unreached(g, ns)
    ensures g[x].Inf? && x in ns ==> Unreached(g[x := Fin(c)], ns) < Unreached(g, ns)
    ensures g[x].Fin? ==> Unreached(g[x := Fin(c)], ns) == Unreached(g, ns)
    ensures g[x].Fin? ==> Spent(g[x := Fin(c)], ns) <= Spent(g, ns)
    ensures g[x].Fin? && x in ns ==> Spent(g[x := Fin(c)], ns) < Spent(g, ns)
  {
    if ns != [] {
      LowerOne(g, ns[1..], x, c);
      if x != ns[0] {
        assert x in ns ==> x in ns[1..];
      }
    }
  }

  /** The grid's cells, row after row. */
  ghost function Flatten(grid: seq<seq<Node>>): seq<Node> {
    if grid == [] then [] else grid[0] + Flatten(grid[1..])
  }

  lemma {:induction false} FlattenHas(grid: seq<seq<Node>>, i: nat, j: nat)
    requires i < |grid| && j < |grid[i]|
    ensures grid[i][j] in Flatten(grid)
  {
    if i > 0 {
      FlattenHas(grid[1..], i - 1, j);
    }
  }

  /** Facts about the neighbour lists that hold for the whole search. */
  ghost predicate NeighborFacts(cells: set<Node>, adj: map<Node, seq<Node>>, init: map<Node, Color>) {
    forall n, m {:trigger Edge(adj, n, m)} :: n in cells && n in adj && m in adj[n] ==>
      m in cells && m in init && init[m] != Black && Heuristic(n.GetPos(), m.GetPos()) == 1
  }

  /** The cell colours while the search runs: queued cells are available,
      expanded ones checked, start and untouched cells keep their colour. */
  ghost predicate Painted(cells: set<Node>, start: Node, hash: set<Node>, expanded: set<Node>,
                          current: Node, init: map<Node, Color>)
    reads cells`color
  {
    && (forall n :: n in cells && n in hash && n != start ==> n.color == Purple)
    && (forall n :: n in cells && n in expanded && n !in hash && n != start && n != current ==>
          n.color == Red)
    && (forall n :: n in cells && n in init && (n == start || (n !in expanded && n !in hash && n != current)) ==>
          n.color == init[n])
  }

  /** The queue holds one entry per pending cell, in increasing count order,
      every count at most the counter and every pending cell reached. */
  ghost predicate QueueAgrees(q: seq<Entry<Node>>, hash: set<Node>, count: nat, s: Scores, cells: set<Node>) {
    && hash == Pending(q)
    && (forall i, j :: 0 <= i < j < |q| ==> q[i].count < q[j].count && q[i].node != q[j].node)
    && (forall i :: 0 <= i < |q| ==>
          q[i].count <= count && q[i].node in cells && q[i].node in s.g && s.g[q[i].node].Fin?)
  }

  /** Taking the entry at k out of the queue keeps the queue invariant for
      the remaining entries, without the taken node. */
  lemma GetKeepsQueue(q: seq<Entry<Node>>, k: nat, hash: set<Node>, count: nat, s: Scores,
                      cells: set<Node>)
    requires QueueAgrees(q, hash, count, s, cells) && k < |q|
    ensures QueueAgrees(q[..k] + q[k + 1..], hash - {q[k].node}, count, s, cells)
  {
    var r := q[..k] + q[k + 1..];
    forall x | x in hash - {q[k].node} ensures x in Pending(r) {
      var i :| 0 <= i < |q| && q[i].node == x;
      if i < k {
        assert r[i] == q[i];
      } else {
        assert r[i - 1] == q[i];
      }
    }
  }

  /** Appending an entry for a node that is not pending, with the next count,
      keeps the queue invariant. */
  lemma PutKeepsQueue(q: seq<Entry<Node>>, hash: set<Node>, count: nat, s: Scores, cells: set<Node>,
                      e: Entry<Node>)
    requires QueueAgrees(q, hash, count, s, cells)
    requires e.count == count + 1 && e.node !in hash
    requires e.node in cells && e.node in s.g && s.g[e.node].Fin?
    ensures QueueAgrees(q + [e], hash + {e.node}, count + 1, s, cells)
  {
    var r := q + [e];
    forall x | x in Pending(r) ensures x in hash + {e.node} {
      var i :| 0 <= i < |r| && r[i].node == x;
      if i < |q| {
        assert q[i].node == x;
      }
    }
    forall x | x in hash + {e.node} ensures x in Pending(r) {
      if x == e.node {
        assert r[|q|].node == x;
      } else {
        var i :| 0 <= i < |q| && q[i].node == x;
        assert r[i].node == x;
      }
    }
  }

  /** The values the neighbour loop changes: the three maps, the queue, the
      set of queued cells and the entry counter. */
  datatype Frontier = Frontier(s: Scores, q: seq<Entry<Node>>, hash: set<Node>, count: nat)

  /** nb improves and is not queued yet, so the pass queues it. */
  predicate Pushes(st: Frontier, current: Node, nb: Node)
    requires current in st.s.g && st.s.g[current].Fin? && nb in st.s.g
  {
    Improves(st.s, current, nb) && nb !in st.hash
  }

  /** One pass of the neighbour loop on values: the edge from current to nb is
      relaxed and, when nb improves and is not queued, nb is queued with its new
      f score and the next count. */
  function AfterVisit(st: Frontier, current: Node, nb: Node, goal: Pos): (r: Frontier)
    requires current in st.s.g && st.s.g[current].Fin? && nb in st.s.g && nb in st.s.f
    ensures r.s == Relax(st.s, current, nb, goal)
  {
    var s := Relax(st.s, current, nb, goal);
    if Pushes(st, current, nb) then
      Frontier(s, st.q + [Entry(s.f[nb].v, st.count + 1, nb)], st.hash + {nb}, st.count + 1)
    else
      Frontier(s, st.q, st.hash, st.count)
  }

  /** The neighbour loop on values: one pass per cell of ns, in list order. */
  function AfterExpand(st: Frontier, current: Node, ns: seq<Node>, goal: Pos): (r: Frontier)
    requires current in st.s.g && st.s.g[current].Fin?
    requires forall nb :: nb in ns ==> nb in st.s.g && nb in st.s.f
    ensures r.s == RelaxAll(st.s, current, ns, goal)
    decreases |ns|
  {
    if ns == [] then st
    else
      assert forall nb :: nb in ns[..|ns| - 1] ==> nb in ns;
      AfterVisit(AfterExpand(st, current, ns[..|ns| - 1], goal), current, ns[|ns| - 1], goal)
  }

  /** What the neighbour passes from st to r guarantee: the queue invariant
      holds, queued cells stay queued and current is not queued, every newly
      queued cell got strictly cheaper, every newly reached cell is queued, and
      either nothing changed or the termination measure went down. */
  ghost predicate Advances(st: Frontier, r: Frontier, cells: set<Node>, current: Node, flat: seq<Node>)
    requires st.s.g.Keys == cells && r.s.g.Keys == cells
  {
    && QueueAgrees(r.q, r.hash, r.count, r.s, cells)
    && st.hash <= r.hash && current !in r.hash && st.count <= r.count
    && (forall n :: n in cells && n in r.hash && n !in st.hash ==>
          r.s.g[n].Fin? && Below(r.s.g[n].v, st.s.g[n]))
    && (forall n :: n in cells && r.s.g[n].Fin? && st.s.g[n].Inf? ==> n in r.hash)
    && (r == st || Lower(r.s.g, st.s.g, flat))
  }

  /** The preconditions shared by the neighbour-pass lemmas. */
  ghost predicate CanExpand(st: Frontier, cells: set<Node>, current: Node, flat: seq<Node>) {
    && st.s.g.Keys == cells && st.s.f.Keys == cells
    && current in cells && st.s.g[current].Fin? && current !in st.hash
    && QueueAgrees(st.q, st.hash, st.count, st.s, cells)
    && (forall n :: n in cells ==> n in flat)
  }

  /** Lowering costs keeps every queued cell reached. */
  lemma QueueAgreesLower(q: seq<Entry<Node>>, hash: set<Node>, count: nat, s: Scores, r: Scores,
                         cells: set<Node>)
    requires QueueAgrees(q, hash, count, s, cells)
    requires s.g.Keys <= r.g.Keys && forall n :: n in s.g ==> AtMost(r.g[n], s.g[n])
    ensures QueueAgrees(q, hash, count, r, cells)
  {
    forall i | 0 <= i < |q| ensures q[i].node in r.g && r.g[q[i].node].Fin? {
      assert AtMost(r.g[q[i].node], s.g[q[i].node]);
    }
  }

  /** One neighbour pass advances the frontier. */
  lemma AfterVisitAdvances(st: Frontier, cells: set<Node>, flat: seq<Node>, current: Node, nb: Node,
                           goal: Pos)
    requires CanExpand(st, cells, current, flat) && nb in cells
    ensures Advances(st, AfterVisit(st, current, nb, goal), cells, current, flat)
  {
    if !Improves(st.s, current, nb) {
      assert AfterVisit(st, current, nb, goal) == st;
    } else if nb in st.hash {
      VisitQueuedAdvances(st, cells, flat, current, nb, goal);
    } else {
      VisitPushAdvances(st, cells, flat, current, nb, goal);
    }
  }

  /** The pass that lowers the cost of a cell already queued. */
  lemma VisitQueuedAdvances(st: Frontier, cells: set<Node>, flat: seq<Node>, current: Node, nb: Node,
                            goal: Pos)
    requires CanExpand(st, cells, current, flat) && nb in cells
    requires Improves(st.s, current, nb) && nb in st.hash
    ensures Advances(st, AfterVisit(st, current, nb, goal), cells, current, flat)
  {
    var r := AfterVisit(st, current, nb, goal);
    QueueAgreesLower(st.q, st.hash, st.count, st.s, r.s, cells);
    LowerOne(st.s.g, flat, nb, st.s.g[current].v + 1);
  }

  /** The pass that lowers the cost of a cell not queued, and queues it. */
  lemma VisitPushAdvances(st: Frontier, cells: set<Node>, flat: seq<Node>, current: Node, nb: Node,
                          goal: Pos)
    requires CanExpand(st, cells, current, flat) && nb in cells
    requires Improves(st.s, current, nb) && nb !in st.hash
    ensures Advances(st, AfterVisit(st, current, nb, goal), cells, current, flat)
  {
    var r := AfterVisit(st, current, nb, goal);
    assert nb != current;
    QueueAgreesLower(st.q, st.hash, st.count, st.s, r.s, cells);
    LowerOne(st.s.g, flat, nb, st.s.g[current].v + 1);
    PutKeepsQueue(st.q, st.hash, st.count, r.s, cells, Entry(r.s.f[nb].v, st.count + 1, nb));
  }

  /** Advancing twice is advancing. */
  lemma AdvancesTrans(st: Frontier, mid: Frontier, r: Frontier, cells: set<Node>, current: Node,
                      flat: seq<Node>)
    requires st.s.g.Keys == cells && mid.s.g.Keys == cells && r.s.g.Keys == cells
    requires forall n :: n in cells ==> AtMost(r.s.g[n], mid.s.g[n]) && AtMost(mid.s.g[n], st.s.g[n])
    requires Advances(st, mid, cells, current, flat) && Advances(mid, r, cells, current, flat)
    ensures Advances(st, r, cells, current, flat)
  {
    forall n | n in cells && n in r.hash && n !in st.hash
      ensures r.s.g[n].Fin? && Below(r.s.g[n].v, st.s.g[n])
    {
      assert AtMost(r.s.g[n], mid.s.g[n]) && AtMost(mid.s.g[n], st.s.g[n]);
    }
    forall n | n in cells && r.s.g[n].Fin? && st.s.g[n].Inf? ensures n in r.hash {
      assert AtMost(mid.s.g[n], st.s.g[n]);
    }
  }

  /** The whole neighbour loop advances the frontier. */
  lemma {:induction false} AfterExpandAdvances(st: Frontier, cells: set<Node>, flat: seq<Node>,
                                               current: Node, ns: seq<Node>, goal: Pos)
    requires CanExpand(st, cells, current, flat) && forall nb :: nb in ns ==> nb in cells
    ensures Advances(st, AfterExpand(st, current, ns, goal), cells, current, flat)
    decreases |ns|
  {
    var r := AfterExpand(st, current, ns, goal);
    if ns == [] {
      assert r == st;
    } else {
      var init := ns[..|ns| - 1];
      assert forall nb :: nb in init ==> nb in ns;
      var mid := AfterExpand(st, current, init, goal);
      AfterExpandAdvances(st, cells, flat, current, init, goal);
      AfterVisitAdvances(mid, cells, flat, current, ns[|ns| - 1], goal);
      AdvancesTrans(st, mid, r, cells, current, flat);
    }
  }

  /** One pass of the neighbour loop: relaxes the edge from current to nb and,
      when nb improves and is not queued, queues it with the next count and
      paints it available. */
  method Visit(current: Node, nb: Node, s: Scores, openSet: PriorityQueue<Node>, hash: set<Node>,
               count: nat, goal: Pos, ghost cells: set<Node>, ghost start: Node,
               ghost expanded: set<Node>, ghost init: map<Node, Color>)
    returns (r: Scores, hash': set<Node>, count': nat)
    requires current in s.g && s.g[current].Fin? && nb in s.g && nb in s.f && nb in cells
    requires start in s.g && s.g[start] == Fin(0)
    requires Painted(cells, start, hash, expanded, current, init)
    modifies openSet, nb`color
    ensures Frontier(r, openSet.entries, hash', count') ==
      AfterVisit(Frontier(s, old(openSet.entries), hash, count), current, nb, goal)
    ensures Painted(cells, start, hash', expanded, current, init)
  {
    var improves := Improves(s, current, nb);
    r, hash', count' := Relax(s, current, nb, goal), hash, count;
    if improves && nb !in hash {
      count' := count + 1;
      openSet.Put(Entry(r.f[nb].v, count', nb));
      hash' := hash + {nb};
      nb.SetAvailable();
    }
  }

  /** Relaxes every edge out of current, in neighbour-list order, queueing and
      painting available each improved neighbour that is not queued yet. */
  method Expand(current: Node, s0: Scores, openSet: PriorityQueue<Node>, hash0: set<Node>,
                count0: nat, goal: Pos, ghost cells: set<Node>, ghost ns: seq<Node>,
                ghost start: Node, ghost init: map<Node, Color>, ghost expanded: set<Node>)
    returns (s: Scores, hash: set<Node>, count: nat)
    requires s0.g.Keys == cells && s0.f.Keys == cells && current in cells && s0.g[current].Fin?
    requires start in cells && s0.g[start] == Fin(0)
    requires current.neighbors == ns && forall nb :: nb in ns ==> nb in cells
    requires Painted(cells, start, hash0, expanded, current, init)
    modifies openSet, cells`color
    ensures Frontier(s, openSet.entries, hash, count) ==
      AfterExpand(Frontier(s0, old(openSet.entries), hash0, count0), current, ns, goal)
    ensures Painted(cells, start, hash, expanded, current, init)
  {
    ghost var st0 := Frontier(s0, openSet.entries, hash0, count0);
    s, hash, count := s0, hash0, count0;
    assert ns[..0] == [];
    for i := 0 to |current.neighbors|
      invariant current.neighbors == ns
      invariant Frontier(s, openSet.entries, hash, count) == AfterExpand(st0, current, ns[..i], goal)
      invariant s.g[start] == Fin(0)
      invariant Painted(cells, start, hash, expanded, current, init)
    {
      var nb := current.neighbors[i];
      assert ns[..i + 1][..i] == ns[..i];
      s, hash, count := Visit(current, nb, s, openSet, hash, count, goal, cells, start, expanded, init);
    }
    assert ns[..|ns|] == ns;
  }

  /** path runs from start to end through cells, each step an edge of adj and
      each cell after start one that was not a barrier when the search began. */
  ghost predicate PathFound(path: seq<Node>, cells: set<Node>, adj: map<Node, seq<Node>>,
                            init: map<Node, Color>, start: Node, end: Node)
  {
    && |path| >= 1 && path[0] == start && path[|path| - 1] == end
    && (forall i :: 0 <= i < |path| ==> path[i] in cells)
    && (forall i :: 0 <= i < |path| - 1 ==> PathStep(adj, path, i))
    && (forall i :: 0 < i < |path| ==> path[i] in init && init[path[i]] != Black)
  }

  /** The colours a successful search leaves: end and start marked, the cells
      strictly inside the path in the path colour, every other cell as the
      search painted it. */
  ghost predicate PaintedFound(cells: set<Node>, path: seq<Node>, start: Node, end: Node,
                               frontier: set<Node>, expanded: set<Node>, init: map<Node, Color>)
    requires start in cells && end in cells && forall i :: 0 <= i < |path| ==> path[i] in cells
    reads cells`color
  {
    && end.color == Turquoise && (start != end ==> start.color == Orange)
    && (forall i :: 0 < i < |path| - 1 ==> path[i].color == Green)
    && (forall n :: n in cells && n != start && n != end && n !in path ==>
          && (n in frontier ==> n.color == Purple)
          && (n in expanded && n !in frontier ==> n.color == Red)
          && (n in init && n !in expanded && n !in frontier ==> n.color == init[n]))
  }

  /** The came_from walk back from a reached end is a path found, and its inner
      cells are strict ancestors of end other than start. */
  lemma PathToFound(s: Scores, cells: set<Node>, adj: map<Node, seq<Node>>, init: map<Node, Color>,
                    start: Node, end: Node)
    requires SearchTree(s, cells, adj, start) && end in cells && s.g[end].Fin?
    requires NeighborFacts(cells, adj, init)
    ensures var p := PathTo(s.cameFrom, s.g, end);
      && PathFound(p, cells, adj, init, start, end)
      && forall i :: 0 < i < |p| - 1 ==> p[i] in p[..|p| - 1] && p[i] != start && p[i] != end
  {
    var p := PathTo(s.cameFrom, s.g, end);
    PathToSpec(s, cells, adj, start, end);
    forall i | 0 < i < |p| ensures p[i] in init && init[p[i]] != Black {
      assert PathStep(adj, p, i - 1);
    }
    forall i | 0 < i < |p| - 1 ensures p[i] in p[..|p| - 1] && p[i] != start && p[i] != end {
      assert ParentStep(s.cameFrom, p, i);
      assert p[..|p| - 1][i] == p[i];
    }
  }

  /** The end of a successful search (current == end): the walk back along
      came_from paints the path, then start and end get their own colours. */
  method Finish(s: Scores, start: Node, end: Node, ghost cells: set<Node>,
                ghost adj: map<Node, seq<Node>>, ghost hash: set<Node>,
                ghost expanded: set<Node>, ghost init: map<Node, Color>)
    returns (ghost path: seq<Node>)
    requires SearchTree(s, cells, adj, start) && end in cells && s.g[end].Fin?
    requires NeighborFacts(cells, adj, init)
    requires Painted(cells, start, hash, expanded, end, init)
    modifies cells`color
    ensures PathFound(path, cells, adj, init, start, end)
    ensures PaintedFound(cells, path, start, end, hash, expanded, init)
  {
    ReconstructPath(s.cameFrom, end, s.g, cells);
    start.SetStart();
    end.SetEnd();
    path := PathTo(s.cameFrom, s.g, end);
    PathToFound(s, cells, adj, init, start, end);
  }

  /** After its neighbours are relaxed, current is painted checked unless it is start. */
  method Close(current: Node, start: Node, ghost cells: set<Node>, ghost hash: set<Node>,
               ghost expanded: set<Node>, ghost init: map<Node, Color>)
    requires current in cells && current !in hash
    requires Painted(cells, start, hash, expanded, current, init)
    modifies current`color
    ensures Painted(cells, start, hash, expanded + {current}, start, init)
  {
    if current != start {
      current.SetChecked();
    }
  }

  /** The invariant of the search loop, on values: the search tree over adj,
      the queue invariant, the expanded cells, which are reached and whose
      neighbours are all reached, and every reached cell expanded or queued. */
  ghost predicate Searching(st: Frontier, cells: set<Node>, adj: map<Node, seq<Node>>, start: Node,
                            end: Node, expanded: set<Node>)
  {
    && SearchTree(st.s, cells, adj, start)
    && QueueAgrees(st.q, st.hash, st.count, st.s, cells)
    && expanded <= cells && end !in expanded
    && AllReached(st.s.g, expanded)
    && NeighboursReached(adj, expanded, st.s.g)
    && Covered(cells, st.s.g, expanded, st.hash)
  }

  /** Every cell of seen has a finite cost. */
  ghost predicate AllReached(g: map<Node, Cost>, seen: set<Node>) {
    forall n :: n in seen ==> n in g && g[n].Fin?
  }

  /** Every neighbour of a cell of expanded has a finite cost. */
  ghost predicate NeighboursReached(adj: map<Node, seq<Node>>, expanded: set<Node>, g: map<Node, Cost>) {
    forall c, nb {:trigger Edge(adj, c, nb)} :: c in expanded && c in adj && nb in adj[c] ==>
      nb in g && g[nb].Fin?
  }

  /** Every cell with a finite cost is expanded or queued. */
  ghost predicate Covered(cells: set<Node>, g: map<Node, Cost>, expanded: set<Node>, hash: set<Node>) {
    forall n {:trigger Reached(g, n)} :: n in cells && n in g && Reached(g, n) ==> n in expanded || n in hash
  }

  /** The frontier once the entry at k is taken out of the queue. */
  function Popped(st: Frontier, k: nat): (r: Frontier)
    requires k < |st.q|
    ensures |r.q| == |st.q| - 1 && r.s == st.s
  {
    Frontier(st.s, st.q[..k] + st.q[k + 1..], st.hash - {st.q[k].node}, st.count)
  }

  /** Once the entry at k is taken out of the queue, its cell is ready to be
      expanded: its neighbours are cells and it is no longer queued. */
  lemma StepReady(st: Frontier, k: nat, cells: set<Node>, adj: map<Node, seq<Node>>, start: Node,
                  end: Node, expanded: set<Node>, init: map<Node, Color>, flat: seq<Node>)
    requires Searching(st, cells, adj, start, end, expanded) && k < |st.q|
    requires adj.Keys == cells && NeighborFacts(cells, adj, init) && forall n :: n in cells ==> n in flat
    ensures var current := st.q[k].node;
      && current in adj && (forall nb :: nb in adj[current] ==> nb in cells)
      && CanExpand(Popped(st, k), cells, current, flat)
  {
    var current := st.q[k].node;
    GetKeepsQueue(st.q, k, st.hash, st.count, st.s, cells);
    forall nb | nb in adj[current] ensures nb in cells {
      assert Edge(adj, current, nb);
    }
  }

  /** One round of the search loop that does not stop keeps its invariant:
      taking the entry at k out of the queue and expanding its cell into r
      either lowers the termination measure or leaves the maps as they were
      with a shorter queue. */
  lemma StepKeeps(st: Frontier, k: nat, r: Frontier, cells: set<Node>, adj: map<Node, seq<Node>>,
                  start: Node, end: Node, expanded: set<Node>, init: map<Node, Color>, flat: seq<Node>,
                  goal: Pos)
    requires Searching(st, cells, adj, start, end, expanded) && k < |st.q| && st.q[k].node != end
    requires adj.Keys == cells && NeighborFacts(cells, adj, init) && forall n :: n in cells ==> n in flat
    requires st.q[k].node in adj && forall nb :: nb in adj[st.q[k].node] ==> nb in cells
    requires r == AfterExpand(Popped(st, k), st.q[k].node, adj[st.q[k].node], goal)
    ensures Searching(r, cells, adj, start, end, expanded + {st.q[k].node}) && st.q[k].node !in r.hash
  {
    var current := st.q[k].node;
    var ns := adj[current];
    StepReady(st, k, cells, adj, start, end, expanded, init, flat);
    AfterExpandAdvances(Popped(st, k), cells, flat, current, ns, goal);
    StepKeepsTree(st, k, r, cells, adj, start, goal);
    ExpandCloses(st.s.g, r.s.g, adj, expanded, current);
    ExpandReached(st.s.g, r.s.g, expanded, current);
    ExpandCovers(st.s.g, r.s.g, cells, expanded, current, st.hash, r.hash);
  }

  /** Expanding the popped cell keeps the search tree invariant. */
  lemma StepKeepsTree(st: Frontier, k: nat, r: Frontier, cells: set<Node>, adj: map<Node, seq<Node>>,
                      start: Node, goal: Pos)
    requires SearchTree(st.s, cells, adj, start) && k < |st.q|
    requires st.q[k].node in cells && st.s.g[st.q[k].node].Fin?
    requires st.q[k].node in adj && forall nb :: nb in adj[st.q[k].node] ==> nb in cells
    requires r == AfterExpand(Popped(st, k), st.q[k].node, adj[st.q[k].node], goal)
    ensures SearchTree(r.s, cells, adj, start)
  {
    var current := st.q[k].node;
    RelaxAllKeepsTree(st.s, cells, adj, start, goal, current, adj[current]);
    assert Popped(st, k).s == st.s;
  }

  /** A round that does not stop either lowers the termination measure or
      leaves the maps as they were, with a shorter queue. */
  lemma StepLowers(st: Frontier, k: nat, r: Frontier, cells: set<Node>, adj: map<Node, seq<Node>>,
                   start: Node, end: Node, expanded: set<Node>, init: map<Node, Color>, flat: seq<Node>,
                   goal: Pos)
    requires Searching(st, cells, adj, start, end, expanded) && k < |st.q|
    requires adj.Keys == cells && NeighborFacts(cells, adj, init) && forall n :: n in cells ==> n in flat
    requires st.q[k].node in adj && forall nb :: nb in adj[st.q[k].node] ==> nb in cells
    requires r == AfterExpand(Popped(st, k), st.q[k].node, adj[st.q[k].node], goal)
    ensures r == Popped(st, k) || Lower(r.s.g, st.s.g, flat)
  {
    StepReady(st, k, cells, adj, start, end, expanded, init, flat);
    AfterExpandAdvances(Popped(st, k), cells, flat, st.q[k].node, adj[st.q[k].node], goal);
  }

  /** Once every neighbour of current is reached and no cost went up, every
      neighbour of an expanded cell or of current is reached. */
  lemma ExpandCloses(g0: map<Node, Cost>, g: map<Node, Cost>, adj: map<Node, seq<Node>>,
                     expanded: set<Node>, current: Node)
    requires NeighboursReached(adj, expanded, g0)
    requires g.Keys == g0.Keys && forall n :: n in g0 ==> AtMost(g[n], g0[n])
    requires current in adj && forall nb :: nb in adj[current] ==> nb in g && g[nb].Fin?
    ensures NeighboursReached(adj, expanded + {current}, g)
  {
    forall c, nb | c in expanded + {current} && c in adj && nb in adj[c] ensures nb in g && g[nb].Fin? {
      if c != current {
        assert Edge(adj, c, nb);
      }
    }
  }

  /** Expanding a reached cell without raising any cost keeps the expanded
      cells reached. */
  lemma ExpandReached(g0: map<Node, Cost>, g: map<Node, Cost>, expanded: set<Node>, current: Node)
    requires AllReached(g0, expanded) && current in g0 && g0[current].Fin?
    requires g.Keys == g0.Keys && forall n :: n in g0 ==> AtMost(g[n], g0[n])
    ensures AllReached(g, expanded + {current})
  {
    forall n | n in expanded + {current} ensures n in g && g[n].Fin? {
      assert AtMost(g[n], g0[n]);
    }
  }

  /** Every queued cell is reached. */
  lemma PendingReached(q: seq<Entry<Node>>, hash: set<Node>, count: nat, s: Scores, cells: set<Node>)
    requires QueueAgrees(q, hash, count, s, cells)
    ensures AllReached(s.g, hash)
  {
    forall n | n in hash ensures n in s.g && s.g[n].Fin? {
      var i :| 0 <= i < |q| && q[i].node == n;
    }
  }

  /** A cell reached after expanding current was reached before, and so is
      expanded or queued, or it is newly queued. */
  lemma ExpandCovers(g0: map<Node, Cost>, g: map<Node, Cost>, cells: set<Node>, expanded: set<Node>,
                     current: Node, hash0: set<Node>, hash: set<Node>)
    requires g0.Keys == cells && g.Keys == cells
    requires Covered(cells, g0, expanded, hash0)
    requires hash0 - {current} <= hash
    requires forall n :: n in cells && g[n].Fin? && g0[n].Inf? ==> n in hash
    ensures Covered(cells, g, expanded + {current}, hash)
  {
    forall n | n in cells && n in g && Reached(g, n) ensures n in expanded + {current} || n in hash {
      if g0[n].Fin? {
        assert Reached(g0, n);
      }
    }
  }

  /** Taking current out of the queued set, with current as the cell being
      expanded, keeps the colour invariant. */
  lemma PaintedPop(cells: set<Node>, start: Node, hash: set<Node>, expanded: set<Node>, current: Node,
                   init: map<Node, Color>)
    requires Painted(cells, start, hash, expanded, start, init)
    ensures Painted(cells, start, hash - {current}, expanded, current, init)
  {
  }

  /** Takes the entry with the smallest (f, count) out of the queue and its
      cell out of the queued set. */
  method Pop(openSet: PriorityQueue<Node>, hash: set<Node>, ghost cells: set<Node>)
    returns (current: Node, hash': set<Node>, ghost k: nat)
    requires openSet.entries != []
    modifies openSet
    ensures unchanged(cells`neighbors)
    ensures k < |old(openSet.entries)| && current == old(openSet.entries)[k].node
    ensures forall i :: 0 <= i < |old(openSet.entries)| ==> KeyLe(old(openSet.entries)[k], old(openSet.entries)[i])
    ensures openSet.entries == old(openSet.entries)[..k] + old(openSet.entries)[k + 1..]
    ensures hash' == hash - {current}
  {
    var e;
    e, k := openSet.Get();
    current := e.node;
    hash' := hash - {current};
  }

  /** One round of the search loop that does not stop: expands the popped cell
      and paints it checked, keeping the loop invariant and lowering the
      termination measure or leaving the maps as they were. */
  method Round(current: Node, s0: Scores, openSet: PriorityQueue<Node>, hash0: set<Node>, count0: nat,
               goal: Pos, ghost st: Frontier, ghost k: nat, ghost cells: set<Node>,
               ghost adj: map<Node, seq<Node>>, start: Node, ghost end: Node,
               ghost expanded: set<Node>, ghost init: map<Node, Color>, ghost flat: seq<Node>)
    returns (s: Scores, hash: set<Node>, count: nat)
    requires Searching(st, cells, adj, start, end, expanded) && k < |st.q|
    requires current == st.q[k].node && current != end
    requires Frontier(s0, openSet.entries, hash0, count0) == Popped(st, k)
    requires adj.Keys == cells && NeighborFacts(cells, adj, init) && forall n :: n in cells ==> n in flat
    requires current.neighbors == adj[current]
    requires Painted(cells, start, hash0, expanded, current, init)
    modifies openSet, cells`color
    ensures Searching(Frontier(s, openSet.entries, hash, count), cells, adj, start, end, expanded + {current})
    ensures Frontier(s, openSet.entries, hash, count) == Popped(st, k) || Lower(s.g, st.s.g, flat)
    ensures Painted(cells, start, hash, expanded + {current}, start, init)
  {
    StepReady(st, k, cells, adj, start, end, expanded, init, flat);
    s, hash, count := Expand(current, s0, openSet, hash0, count0, goal, cells, adj[current], start, init, expanded);
    StepKeeps(st, k, Frontier(s, openSet.entries, hash, count), cells, adj, start, end, expanded, init, flat, goal);
    StepLowers(st, k, Frontier(s, openSet.entries, hash, count), cells, adj, start, end, expanded, init, flat, goal);
    Close(current, start, cells, hash, expanded, init);
  }

  /** One pass of the search loop: take the best queued cell off the queue,
      then reconstruct the path when it is end, otherwise expand it. */
  method Iterate(s0: Scores, openSet: PriorityQueue<Node>, hash0: set<Node>, count0: nat, goal: Pos,
                 ghost cells: set<Node>, ghost adj: map<Node, seq<Node>>, start: Node, end: Node,
                 ghost expanded: set<Node>, ghost init: map<Node, Color>, ghost flat: seq<Node>)
    returns (found: bool, s: Scores, hash: set<Node>, count: nat, ghost current: Node, ghost k: nat,
             ghost path: seq<Node>)
    requires Searching(Frontier(s0, openSet.entries, hash0, count0), cells, adj, start, end, expanded)
    requires openSet.entries != []
    requires Snapshot(cells, adj) && NeighborFacts(cells, adj, init) && forall n :: n in cells ==> n in flat
    requires Painted(cells, start, hash0, expanded, start, init)
    modifies openSet, cells`color
    ensures k < |old(openSet.entries)| && current == old(openSet.entries)[k].node
    ensures forall i :: 0 <= i < |old(openSet.entries)| ==> KeyLe(old(openSet.entries)[k], old(openSet.entries)[i])
    ensures found <==> current == end
    ensures found ==> SearchTree(s, cells, adj, start) && AllReached(s.g, expanded + hash)
    ensures found ==> PathFound(path, cells, adj, init, start, end)
    ensures found ==> PaintedFound(cells, path, start, end, hash, expanded, init)
    ensures !found ==> Searching(Frontier(s, openSet.entries, hash, count), cells, adj, start, end, expanded + {current})
    ensures !found ==> Painted(cells, start, hash, expanded + {current}, start, init)
    ensures !found ==> (s.g == s0.g && |openSet.entries| < |old(openSet.entries)|) || Lower(s.g, s0.g, flat)
  {
    ghost var st := Frontier(s0, openSet.entries, hash0, count0);
    var node, hash1;
    node, hash1, k := Pop(openSet, hash0, cells);
    current := node;
    PaintedPop(cells, start, st.hash, expanded, node, init);
    if node == end {
      PendingReached(st.q, st.hash, st.count, st.s, cells);
      path := Finish(s0, start, end, cells, adj, hash1, expanded, init);
      return true, s0, hash1, count0, current, k, path;
    }
    found, path := false, [];
    s, hash, count :=
      Round(node, s0, openSet, hash1, count0, goal, st, k, cells, adj, start, end, expanded, init, flat);
  }

  /** The reachable part of the grid is used up: start was expanded, end was
      not, and every neighbour of an expanded cell was expanded too. */
  ghost predicate Closed(adj: map<Node, seq<Node>>, start: Node, end: Node, expanded: set<Node>) {
    && start in expanded && end !in expanded
    && ClosedUnder(adj, expanded)
  }

  /** The colours a search that gives up leaves: the expanded cells other than
      start checked, every other cell as it was. */
  ghost predicate PaintedExhausted(cells: set<Node>, start: Node, expanded: set<Node>, init: map<Node, Color>)
    reads cells`color
  {
    forall n :: n in cells && n in init ==> n.color == if n in expanded && n != start then Red else init[n]
  }

  /** When the queue runs empty, the expanded cells are closed under the
      neighbour relation and painted as a search that gives up leaves them. */
  lemma SearchExhausted(st: Frontier, cells: set<Node>, adj: map<Node, seq<Node>>, start: Node, end: Node,
                        expanded: set<Node>, init: map<Node, Color>)
    requires Searching(st, cells, adj, start, end, expanded) && st.q == []
    requires Painted(cells, start, st.hash, expanded, start, init)
    requires NeighborFacts(cells, adj, init)
    ensures st.hash == {} && Closed(adj, start, end, expanded)
    ensures PaintedExhausted(cells, start, expanded, init)
    ensures forall n :: n in expanded ==>
      && n in cells && (n != start ==> n in init && init[n] != Black)
      && exists p :: WalkFrom(cells, adj, start, p, n)
  {
    ReachedWalks(st.s, cells, adj, init, start, expanded);
    forall c, nb | c in expanded && c in adj && nb in adj[c] ensures nb in expanded {
      assert Edge(adj, c, nb);
      assert Reached(st.s.g, nb);
    }
    assert Reached(st.s.g, start);
  }

  /** The search loop: pops the entry with the smallest (f, count), stops at end
      with the path painted, and otherwise expands the popped cell; gives up when
      the queue runs empty. */
  method Run(start: Node, end: Node, s0: Scores, openSet: PriorityQueue<Node>, hash0: set<Node>,
             count0: nat, goal: Pos, ghost cells: set<Node>, ghost adj: map<Node, seq<Node>>,
             ghost init: map<Node, Color>, ghost flat: seq<Node>)
    returns (found: bool, ghost path: seq<Node>, ghost expanded: set<Node>, ghost frontier: set<Node>)
    requires start in cells && end in cells && init.Keys == cells
    requires forall n :: n in cells ==> n in flat
    requires Snapshot(cells, adj) && NeighborFacts(cells, adj, init)
    requires Searching(Frontier(s0, openSet.entries, hash0, count0), cells, adj, start, end, {})
    requires Painted(cells, start, hash0, {}, start, init)
    modifies openSet, cells`color
    ensures found ==> PathFound(path, cells, adj, init, start, end)
    ensures found ==> PaintedFound(cells, path, start, end, frontier, expanded, init)
    ensures !found ==> frontier == {} && Closed(adj, start, end, expanded)
    ensures forall n :: n in expanded + frontier ==>
      && n in cells && (n != start ==> n in init && init[n] != Black)
      && exists p :: WalkFrom(cells, adj, start, p, n)
    ensures Snapshot(cells, adj)
    ensures !found ==> PaintedExhausted(cells, start, expanded, init)
  {
    var s, openSetHash, count := s0, hash0, count0;
    expanded := {};
    while !openSet.Empty()
      invariant Searching(Frontier(s, openSet.entries, openSetHash, count), cells, adj, start, end, expanded)
      invariant Painted(cells, start, openSetHash, expanded, start, init)
      invariant unchanged(cells`neighbors)
      decreases Unreached(s.g, flat), Spent(s.g, flat), |openSet.entries|
    {
      ghost var current, k;
      found, s, openSetHash, count, current, k, path :=
        Iterate(s, openSet, openSetHash, count, goal, cells, adj, start, end, expanded, init, flat);
      if found {
        ReachedWalks(s, cells, adj, init, start, expanded + openSetHash);
        return true, path, expanded, openSetHash;
      }
      expanded := expanded + {current};
    }
    SearchExhausted(Frontier(s, openSet.entries, openSetHash, count), cells, adj, start, end, expanded, init);
    return false, [], expanded, openSetHash;
  }

  /** The grid's neighbour lists, recorded in adj before the search starts,
      give the facts the search relies on. */
  lemma SearchSetup(grid: seq<seq<Node>>, cells: set<Node>, flat: seq<Node>, init: map<Node, Color>,
                    adj: map<Node, seq<Node>>)
    requires WellFormed(grid) && NeighborsSound(grid) && cells == Cells(grid) && flat == Flatten(grid)
    requires init.Keys == cells && forall n :: n in cells ==> init[n] == n.color
    requires Snapshot(cells, adj)
    ensures forall n :: n in cells ==> n in flat
    ensures NeighborFacts(cells, adj, init)
  {
    forall n | n in cells ensures n in flat {
      CellAt(grid, n);
      FlattenHas(grid, n.row, n.col);
    }
    forall n, m | n in cells && n in adj && m in adj[n]
      ensures m in cells && m in init && init[m] != Black && Heuristic(n.GetPos(), m.GetPos()) == 1
    {
      assert m in n.neighbors;
    }
  }

  /** The maps, queue and queued set algo starts from satisfy the search
      loop's invariant, with nothing expanded yet. */
  lemma InitialSearching(s: Scores, cells: set<Node>, adj: map<Node, seq<Node>>, start: Node, end: Node)
    requires start in cells && s.g.Keys == cells && s.f.Keys == cells && s.cameFrom == map[]
    requires forall n :: n in cells ==> s.g[n] == if n == start then Fin(0) else Inf
    ensures Searching(Frontier(s, [Entry(0, 0, start)], {start}, 0), cells, adj, start, end, {})
  {
    var q := [Entry(0, 0, start)];
    assert Pending(q) == {start} by {
      assert q[0].node == start;
    }
    forall n | n in cells && Reached(s.g, n) ensures n in {start} {
    }
  }

  /** p runs through cells along the edges of adj. */
  ghost predicate AdjWalk(cells: set<Node>, adj: map<Node, seq<Node>>, p: seq<Node>) {
    && (forall i :: 0 <= i < |p| ==> p[i] in cells)
    && (forall i :: 0 <= i < |p| - 1 ==> PathStep(adj, p, i))
  }

  /** p is a walk along adj from start that ends at n. */
  ghost predicate WalkFrom(cells: set<Node>, adj: map<Node, seq<Node>>, start: Node, p: seq<Node>, n: Node) {
    AdjWalk(cells, adj, p) && |p| > 0 && p[0] == start && p[|p| - 1] == n
  }

  /** While adj records the neighbour lists, the walks of the grid are the
      walks along adj. */
  lemma WalkAgrees(grid: seq<seq<Node>>, cells: set<Node>, adj: map<Node, seq<Node>>)
    requires cells == Cells(grid) && Snapshot(cells, adj)
    ensures forall p :: Walk(grid, p) <==> AdjWalk(cells, adj, p)
  {
    forall p: seq<Node> ensures Walk(grid, p) <==> AdjWalk(cells, adj, p) {
      if Walk(grid, p) {
        forall i | 0 <= i < |p| - 1 ensures PathStep(adj, p, i) {
          assert p[i] in cells;
        }
      }
      if AdjWalk(cells, adj, p) {
        forall i | 0 <= i < |p| - 1 ensures p[i + 1] in p[i].neighbors {
          assert PathStep(adj, p, i);
        }
      }
    }
  }

  /** A reached cell's came_from walk makes it reachable from start. */
  lemma ReachedWalks(s: Scores, cells: set<Node>, adj: map<Node, seq<Node>>, init: map<Node, Color>,
                     start: Node, seen: set<Node>)
    requires SearchTree(s, cells, adj, start) && NeighborFacts(cells, adj, init)
    requires AllReached(s.g, seen)
    ensures forall n :: n in seen ==>
      && n in cells && (n != start ==> n in init && init[n] != Black)
      && exists p :: WalkFrom(cells, adj, start, p, n)
  {
    forall n | n in seen
      ensures n in cells && (n != start ==> n in init && init[n] != Black)
      ensures exists p :: WalkFrom(cells, adj, start, p, n)
    {
      PathToSpec(s, cells, adj, start, n);
      var p := PathTo(s.cameFrom, s.g, n);
      assert AdjWalk(cells, adj, p);
      if n != start {
        assert PathStep(adj, p, |p| - 2);
      }
      assert WalkFrom(cells, adj, start, p, n);
    }
  }

  /** A path found is a walk along adj in unit steps. */
  lemma FoundWalk(cells: set<Node>, adj: map<Node, seq<Node>>, init: map<Node, Color>,
                  path: seq<Node>, start: Node, end: Node)
    requires NeighborFacts(cells, adj, init) && PathFound(path, cells, adj, init, start, end)
    ensures AdjWalk(cells, adj, path)
    ensures forall i :: 0 <= i < |path| - 1 ==> Heuristic(path[i].GetPos(), path[i + 1].GetPos()) == 1
  {
    forall i | 0 <= i < |path| - 1
      ensures Heuristic(path[i].GetPos(), path[i + 1].GetPos()) == 1
    {
      assert PathStep(adj, path, i);
    }
  }

  /** Every edge of adj that leaves a cell of inside ends in inside. */
  ghost predicate ClosedUnder(adj: map<Node, seq<Node>>, inside: set<Node>) {
    forall c, nb {:trigger Edge(adj, c, nb)} :: c in inside && c in adj && nb in adj[c] ==> nb in inside
  }

  /** A walk that starts inside a set closed under the edges of adj stays inside it. */
  lemma {:induction false} AdjWalkStays(cells: set<Node>, adj: map<Node, seq<Node>>,
                                        inside: set<Node>, p: seq<Node>)
    requires AdjWalk(cells, adj, p) && |p| > 0 && p[0] in inside
    requires ClosedUnder(adj, inside)
    ensures forall i :: 0 <= i < |p| ==> p[i] in inside
  {
    if |p| > 1 {
      assert PathStep(adj, p, 0);
      var rest := p[1..];
      assert AdjWalk(cells, adj, rest) by {
        forall i | 0 <= i < |rest| - 1 ensures PathStep(adj, rest, i) {
          assert PathStep(adj, p, i + 1);
        }
      }
      AdjWalkStays(cells, adj, inside, rest);
      forall i | 0 <= i < |p| ensures p[i] in inside {
        if i > 0 { assert p[i] == rest[i - 1]; }
      }
    }
  }

  /** When the expanded cells are closed, every walk along adj from start ends
      at an expanded cell, so none ends at end. */
  lemma ClosedWalks(cells: set<Node>, adj: map<Node, seq<Node>>, start: Node, end: Node,
                    expanded: set<Node>)
    requires Closed(adj, start, end, expanded)
    ensures forall p :: AdjWalk(cells, adj, p) && |p| > 0 && p[0] == start ==>
      p[|p| - 1] in expanded && p[|p| - 1] != end
  {
    forall p | AdjWalk(cells, adj, p) && |p| > 0 && p[0] == start
      ensures p[|p| - 1] in expanded
    {
      AdjWalkStays(cells, adj, expanded, p);
    }
  }

  /** The state algo starts from: start queued with priority 0 and count 0,
      every cell at cost Inf except start at 0 with its heuristic distance
      as f, and no came_from links. */
  method Init(grid: seq<seq<Node>>, start: Node, goal: Pos, ghost cells: set<Node>)
    returns (openSet: PriorityQueue<Node>, s: Scores, hash: set<Node>, count: nat)
    requires cells == Cells(grid) && start in cells
    ensures fresh(openSet) && openSet.entries == [Entry(0, 0, start)] && hash == {start} && count == 0
    ensures s.g.Keys == cells && s.f.Keys == cells && s.cameFrom == map[]
    ensures forall n :: n in cells ==> s.g[n] == if n == start then Fin(0) else Inf
    ensures s.f[start] == Fin(Heuristic(start.GetPos(), goal))
    ensures forall n :: n in cells && n != start ==> s.f[n] == Inf
  {
    count := 0;
    openSet := new PriorityQueue<Node>();
    openSet.Put(Entry(0, count, start));
    var inf := map n | n in Cells(grid) :: Inf;
    s := Scores(inf[start := Fin(0)], inf[start := Fin(Heuristic(start.GetPos(), goal))], map[]);
    hash := {start};
  }

  /** The A* search from start to end; returns whether end was reached. */
  method Algo(grid: seq<seq<Node>>, start: Node, end: Node)
    returns (found: bool, ghost path: seq<Node>, ghost expanded: set<Node>, ghost frontier: set<Node>)
    requires WellFormed(grid) && NeighborsSound(grid)
    requires start in Cells(grid) && end in Cells(grid)
    modifies Cells(grid)`color
    ensures found ==>
      && |path| >= 1 && path[0] == start && path[|path| - 1] == end && Walk(grid, path)
      && (forall i :: 0 <= i < |path| - 1 ==> Heuristic(path[i].GetPos(), path[i + 1].GetPos()) == 1)
      && (forall i :: 0 < i < |path| ==> old(path[i].color) != Black)
    ensures found ==> end.color == Turquoise && (start != end ==> start.color == Orange)
    ensures found ==> forall i :: 0 < i < |path| - 1 ==> path[i].color == Green
    ensures found ==> forall n :: n in Cells(grid) && n != start && n != end && n !in path ==>
      && (n in frontier ==> n.color == Purple)
      && (n in expanded && n !in frontier ==> n.color == Red)
      && (n !in expanded && n !in frontier ==> n.color == old(n.color))
    ensures !found ==> frontier == {} && end !in expanded
    ensures !found ==> forall p :: Walk(grid, p) && |p| > 0 && p[0] == start ==>
      p[|p| - 1] in expanded && p[|p| - 1] != end
    ensures !found ==> start.color == old(start.color) && forall n :: n in Cells(grid) && n != start ==>
      n.color == if n in expanded then Red else old(n.color)
    ensures forall n :: n in expanded + frontier ==>
      && n in Cells(grid) && (n != start ==> old(n.color) != Black)
      && exists p :: Walk(grid, p) && |p| > 0 && p[0] == start && p[|p| - 1] == n
  {
    ghost var cells := Cells(grid);
    ghost var flat := Flatten(grid);
    ghost var init: map<Node, Color> := map n: Node | n in cells :: n.color;
    ghost var adj: map<Node, seq<Node>> := map n: Node | n in cells :: n.neighbors;
    SearchSetup(grid, cells, flat, init, adj);
    assert forall n :: n in cells ==> allocated(n);
    var goal := end.GetPos();
    var openSet, s, openSetHash, count := Init(grid, start, goal, cells);
    InitialSearching(s, cells, adj, start, end);
    found, path, expanded, frontier := Run(start, end, s, openSet, openSetHash, count, goal, cells, adj, init, flat);
    WalkAgrees(grid, cells, adj);
    if found {
      FoundWalk(cells, adj, init, path, start, end);
    } else {
      ClosedWalks(cells, adj, start, end, expanded);
    }
  }
}
