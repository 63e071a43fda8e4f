/**
 * Tree discovery: a breadth-first flood fill from the struck block over cells
 * of the same block kind, under 26-neighbour adjacency. The world is only read.
 */
module Discovery {
  import opened Seqs
  import opened ScanOrder
  import opened Voxel

  datatype Option<T> = None | Some(value: T)

  /** A discovered tree: the world it stands in and its logs in discovery order. */
  datatype Tree = Tree(world: World, logs: seq<Pos>)
  {
    /** How many logs the tree has; for a duplicate-free list, the number of distinct cells. */
    function LogCount(): (n: nat)
      ensures n == |logs|
      ensures NoDuplicates(logs) ==> n == |Elems(logs)|
    {
      if NoDuplicates(logs) then DistinctCount(logs); |logs| else |logs|
    }
  }

  // ---------------------------------------------------------------------------
  // What a discovered log list is

  /** Every log has block kind `b`. */
  predicate SameBlock(cells: map<Pos, Block>, b: Block, logs: seq<Pos>)
  {
    forall i :: 0 <= i < |logs| ==> BlockIn(cells, logs[i]) == b
  }

  /** Every neighbour of a log that has kind `b` is itself a log. */
  ghost predicate Closed(cells: map<Pos, Block>, b: Block, logs: seq<Pos>)
  {
    forall i, q :: 0 <= i < |logs| && Adjacent(logs[i], q) && BlockIn(cells, q) == b ==> q in logs
  }

  /** The list starts at the seed, and every later log neighbours an earlier one. */
  ghost predicate GrownFrom(seed: Pos, logs: seq<Pos>)
  {
    && |logs| > 0
    && logs[0] == seed
    && forall i :: 0 < i < |logs| ==> exists j :: 0 <= j < i && Adjacent(logs[j], logs[i])
  }

  /**
   * `q` is reached from `seed` by a walk of `n` steps between neighbouring
   * cells, all of kind `b`.
   */
  ghost predicate ReachableIn(cells: map<Pos, Block>, b: Block, seed: Pos, q: Pos, n: nat)
    decreases n
  {
    if n == 0 then q == seed && BlockIn(cells, seed) == b
    else exists m :: ReachableIn(cells, b, seed, m, n - 1) && Adjacent(m, q) && BlockIn(cells, q) == b
  }

  /** `q` is reached from `seed` by some walk between neighbouring cells of kind `b`. */
  ghost predicate Reachable(cells: map<Pos, Block>, b: Block, seed: Pos, q: Pos)
  {
    exists n: nat :: ReachableIn(cells, b, seed, q, n)
  }

  /** Every log of a list grown from the seed, all of kind `b`, is reached from the seed. */
  lemma {:induction false} GrownReachable(cells: map<Pos, Block>, b: Block, seed: Pos, logs: seq<Pos>, i: nat)
    requires GrownFrom(seed, logs) && SameBlock(cells, b, logs)
    requires i < |logs|
    ensures Reachable(cells, b, seed, logs[i])
    decreases i
  {
    if i == 0 {
      assert ReachableIn(cells, b, seed, logs[0], 0);
    } else {
      var j :| 0 <= j < i && Adjacent(logs[j], logs[i]);
      GrownReachable(cells, b, seed, logs, j);
      var n: nat :| ReachableIn(cells, b, seed, logs[j], n);
      assert ReachableIn(cells, b, seed, logs[i], n + 1);
    }
  }

  /** Every cell reached from a log of a closed list is itself a log. */
  lemma {:induction false} ClosedHoldsReachable(cells: map<Pos, Block>, b: Block, seed: Pos, logs: seq<Pos>, q: Pos, n: nat)
    requires Closed(cells, b, logs) && seed in logs
    requires ReachableIn(cells, b, seed, q, n)
    ensures q in logs
    decreases n
  {
    if n > 0 {
      var m :| ReachableIn(cells, b, seed, m, n - 1) && Adjacent(m, q) && BlockIn(cells, q) == b;
      ClosedHoldsReachable(cells, b, seed, logs, m, n - 1);
      var i :| 0 <= i < |logs| && logs[i] == m;
      assert Adjacent(logs[i], q);
    }
  }

  /**
   * A list grown from the seed, of the seed's kind and closed under
   * neighbours of that kind, holds exactly the cells reachable from the seed:
   * the connected component of the seed.
   */
  lemma LogsAreComponent(cells: map<Pos, Block>, b: Block, seed: Pos, logs: seq<Pos>)
    requires GrownFrom(seed, logs) && SameBlock(cells, b, logs) && Closed(cells, b, logs)
    ensures forall q :: q in logs <==> Reachable(cells, b, seed, q)
  {
    forall q | q in logs
      ensures Reachable(cells, b, seed, q)
    {
      var i :| 0 <= i < |logs| && logs[i] == q;
      GrownReachable(cells, b, seed, logs, i);
    }
    forall q | Reachable(cells, b, seed, q)
      ensures q in logs
    {
      var n: nat :| ReachableIn(cells, b, seed, q, n);
      assert seed == logs[0];
      ClosedHoldsReachable(cells, b, seed, logs, q, n);
    }
  }

  // ---------------------------------------------------------------------------
  // The 3x3x3 neighbour scan

  /**
   * `world` holds a block of kind `logBlock` at `p`: for a block other than
   * air, a stored cell of that kind; for air, a cell the world stores nothing
   * at, or stores air at.
   */
  predicate IsSameLog(world: World, p: Pos, logBlock: Block): (r: bool)
    reads world
    ensures logBlock != Air ==> (r <==> p in world.cells && world.cells[p] == logBlock)
    ensures logBlock == Air ==> (r <==> p !in world.cells || world.cells[p] == Air)
  {
    world.BlockAt(p) == logBlock
  }

  /**
   * `s` is what the scan around `p` collects: the cells of its 3x3x3 cube that
   * hold `logBlock` and are not in `analyzed`, each once, in the scan's order
   * (loops over x, then z, then y, each from -1 to 1).
   */
  ghost predicate IsNeighbourScan(cells: map<Pos, Block>, logBlock: Block, p: Pos, analyzed: set<Pos>, s: seq<Pos>)
  {
    && InScanOrder(XZY, p, s)
    && forall q :: q in s <==> Near(p, q) && q !in analyzed && BlockIn(cells, q) == logBlock
  }

  /** `s` is what the scan around `p` has collected before its loop counters reach `t`. */
  ghost predicate ScannedBefore(cells: map<Pos, Block>, logBlock: Block, p: Pos, analyzed: set<Pos>, s: seq<Pos>, t: Counters)
  {
    && InScanOrder(XZY, p, s)
    && forall q :: q in s <==> Near(p, q) && q !in analyzed && BlockIn(cells, q) == logBlock && VisitedBefore(XZY, p, q, t)
  }

  /**
   * The neighbour list built for `p`: the scan of its 3x3x3 cube (the first
   * `scanned` elements), followed by every element of `analyzed` in an
   * unspecified order.
   */
  method NeighborLogs(world: World, logBlock: Block, p: Pos, analyzed: set<Pos>) returns (ns: seq<Pos>, ghost scanned: nat)
    ensures scanned <= |ns|
    ensures IsNeighbourScan(world.cells, logBlock, p, analyzed, ns[..scanned])
    ensures Elems(ns[scanned..]) == analyzed
    ensures forall q :: q in ns <==> q in analyzed || (Near(p, q) && BlockIn(world.cells, q) == logBlock)
  {
    ns := [];
    var x := -1;
    while x <= 1
      invariant -1 <= x <= 2
      invariant ScannedBefore(world.cells, logBlock, p, analyzed, ns, (x, -1, -1))
    {
      var z := -1;
      while z <= 1
        invariant -1 <= z <= 2
        invariant ScannedBefore(world.cells, logBlock, p, analyzed, ns, (x, z, -1))
      {
        var y := -1;
        while y <= 1
          invariant -1 <= y <= 2
          invariant ScannedBefore(world.cells, logBlock, p, analyzed, ns, (x, z, y))
        {
          var checkPos := Pos(p.x + x, p.y + y, p.z + z);
          if checkPos !in analyzed && IsSameLog(world, checkPos, logBlock) {
            AppendInScanOrder(XZY, p, ns, checkPos);
            ns := ns + [checkPos];
          }
          y := y + 1;
        }
        z := z + 1;
      }
      x := x + 1;
    }
    scanned := |ns|;
    var rest := analyzed;
    while rest != {}
      invariant scanned <= |ns| && IsNeighbourScan(world.cells, logBlock, p, analyzed, ns[..scanned])
      invariant Elems(ns[scanned..]) + rest == analyzed
      decreases rest
    {
      var q :| q in rest;
      assert ns[scanned..] + [q] == (ns + [q])[scanned..];
      assert (ns + [q])[..scanned] == ns[..scanned];
      ns := ns + [q];
      rest := rest - {q};
    }
    forall q
      ensures q in ns <==> q in analyzed || (Near(p, q) && BlockIn(world.cells, q) == logBlock)
    {
      assert ns == ns[..scanned] + ns[scanned..];
      assert q in ns <==> q in ns[..scanned] || q in ns[scanned..];
    }
  }

  // ---------------------------------------------------------------------------
  // The flood fill

  /** Removing the visited cells from the neighbour list leaves exactly the scan of the cube. */
  lemma ScanLessVisited(cells: map<Pos, Block>, b: Block, p: Pos, analyzed: set<Pos>, ns: seq<Pos>, scanned: nat)
    requires scanned <= |ns| && IsNeighbourScan(cells, b, p, analyzed, ns[..scanned])
    requires Elems(ns[scanned..]) == analyzed
    ensures Without(ns, analyzed) == ns[..scanned]
  {
    assert ns == ns[..scanned] + ns[scanned..];
    RemoveAllAfterAddAll(ns[..scanned], ns[scanned..], analyzed);
  }

  /** Every cell waiting in `queue` neighbours some log found so far. */
  ghost predicate QueueLinked(logs: seq<Pos>, queue: seq<Pos>)
  {
    forall q :: q in queue ==> exists j :: 0 <= j < |logs| && Adjacent(logs[j], q)
  }

  /** Every neighbour of kind `b` of a log found so far is a log or is waiting in `queue`. */
  ghost predicate ClosedUpTo(cells: map<Pos, Block>, b: Block, logs: seq<Pos>, queue: seq<Pos>)
  {
    forall i, q :: 0 <= i < |logs| && Adjacent(logs[i], q) && BlockIn(cells, q) == b ==> q in logs || q in queue
  }

  /** The index of the first cell of `s` that neighbours `q`, or `|s|` when none does. */
  function FirstAdjacent(s: seq<Pos>, q: Pos): (r: nat)
    ensures r <= |s|
    ensures r < |s| ==> Adjacent(s[r], q)
    ensures forall j :: 0 <= j < r ==> !Adjacent(s[j], q)
  {
    if s == [] then 0
    else if Adjacent(s[0], q) then 0
    else 1 + FirstAdjacent(s[1..], q)
  }

  /** Extending a list leaves the first neighbour of `q` where it was, once there is one. */
  lemma FirstAdjacentKept(s: seq<Pos>, t: seq<Pos>, q: Pos)
    requires FirstAdjacent(s, q) < |s|
    ensures FirstAdjacent(s + t, q) == FirstAdjacent(s, q)
  {
    var r, r' := FirstAdjacent(s, q), FirstAdjacent(s + t, q);
    assert (s + t)[r] == s[r];
  }

  /**
   * Breadth-first order: past the seed, the index of the first log that
   * neighbours each log never decreases along the list, and logs first
   * neighboured by the same log come in the order of that log's neighbour scan.
   */
  ghost predicate BreadthFirst(logs: seq<Pos>)
  {
    forall i, k :: 1 <= i < k < |logs| ==>
      && FirstAdjacent(logs, logs[i]) <= FirstAdjacent(logs, logs[k])
      && (FirstAdjacent(logs, logs[i]) == FirstAdjacent(logs, logs[k]) < |logs| ==>
            VisitedBefore(XZY, logs[FirstAdjacent(logs, logs[i])], logs[i],
                          CountersOf(XZY, logs[FirstAdjacent(logs, logs[i])], logs[k])))
  }

  /**
   * Past the seed, the first neighbour among the logs and queue of each cell
   * in them is a log, and stays the same when cells join the queue.
   */
  lemma ParentsKept(seed: Pos, logs: seq<Pos>, queue: seq<Pos>, unqueued: seq<Pos>)
    requires logs == [] ==> queue == [seed]
    requires logs != [] ==> GrownFrom(seed, logs) && QueueLinked(logs, queue)
    ensures forall i :: 1 <= i < |logs + queue| ==>
      && FirstAdjacent(logs + queue, (logs + queue)[i]) < |logs|
      && FirstAdjacent(logs + queue + unqueued, (logs + queue + unqueued)[i]) == FirstAdjacent(logs + queue, (logs + queue)[i])
  {
    var w := logs + queue;
    forall i | 1 <= i < |w|
      ensures FirstAdjacent(w, w[i]) < |logs|
      ensures FirstAdjacent(w + unqueued, (w + unqueued)[i]) == FirstAdjacent(w, w[i])
    {
      assert (w + unqueued)[i] == w[i];
      if i < |logs| {
        var j :| 0 <= j < i && Adjacent(logs[j], logs[i]);
        assert w[j] == logs[j] && w[i] == logs[i];
      } else {
        assert w[i] in queue;
        var j :| 0 <= j < |logs| && Adjacent(logs[j], w[i]);
        assert w[j] == logs[j];
      }
      FirstAdjacentKept(w, unqueued, w[i]);
    }
  }

  /** Cells that neighbour the queue's head and no log have the head as their first neighbour. */
  lemma NewParents(logs: seq<Pos>, queue: seq<Pos>, unqueued: seq<Pos>)
    requires queue != []
    requires forall q :: q in unqueued ==> Adjacent(queue[0], q)
    requires forall j, q :: 0 <= j < |logs| && q in unqueued ==> !Adjacent(logs[j], q)
    ensures forall k :: |logs + queue| <= k < |logs + queue + unqueued| ==>
      FirstAdjacent(logs + queue + unqueued, (logs + queue + unqueued)[k]) == |logs|
  {
    var w := logs + queue;
    var w' := w + unqueued;
    forall k | |w| <= k < |w'|
      ensures FirstAdjacent(w', w'[k]) == |logs|
    {
      var u := w'[k];
      assert u == unqueued[k - |w|];
      assert w'[|logs|] == queue[0];
      forall j | 0 <= j < |logs|
        ensures !Adjacent(w'[j], u)
      {
        assert w'[j] == logs[j];
      }
    }
  }

  /**
   * Visiting the queue's head keeps the logs followed by the queue in
   * breadth-first order, when the newly queued cells come in scan order around
   * the head, neighbour it, and neighbour no earlier log.
   */
  lemma OrderStep(seed: Pos, logs: seq<Pos>, queue: seq<Pos>, unqueued: seq<Pos>)
    requires queue != []
    requires logs == [] ==> queue == [seed]
    requires logs != [] ==> GrownFrom(seed, logs) && QueueLinked(logs, queue)
    requires BreadthFirst(logs + queue)
    requires InScanOrder(XZY, queue[0], unqueued)
    requires forall q :: q in unqueued ==> Adjacent(queue[0], q)
    requires forall j, q :: 0 <= j < |logs| && q in unqueued ==> !Adjacent(logs[j], q)
    ensures BreadthFirst(logs + queue + unqueued)
  {
    var w, m := logs + queue, |logs|;
    var w' := w + unqueued;
    ParentsKept(seed, logs, queue, unqueued);
    NewParents(logs, queue, unqueued);
    forall i, k | 1 <= i < k < |w'|
      ensures FirstAdjacent(w', w'[i]) <= FirstAdjacent(w', w'[k])
      ensures FirstAdjacent(w', w'[i]) == FirstAdjacent(w', w'[k]) < |w'| ==>
                VisitedBefore(XZY, w'[FirstAdjacent(w', w'[i])], w'[i], CountersOf(XZY, w'[FirstAdjacent(w', w'[i])], w'[k]))
    {
      if k < |w| {
        assert w'[i] == w[i] && w'[k] == w[k];
        assert w'[FirstAdjacent(w, w[i])] == w[FirstAdjacent(w, w[i])];
      } else if |w| <= i {
        assert w'[m] == queue[0];
        assert w'[i] == unqueued[i - |w|] && w'[k] == unqueued[k - |w|];
      }
    }
  }

  /**
   * The state of the flood fill between two visits: the logs found so far
   * (also held as the set `analyzed`) and the queue of cells still to visit
   * are duplicate-free, disjoint and of kind `b`; the logs grow from the seed;
   * and every neighbour of kind `b` of a log has been found or is queued.
   */
  ghost predicate FillState(cells: map<Pos, Block>, b: Block, seed: Pos, logs: seq<Pos>, analyzed: set<Pos>, queue: seq<Pos>)
  {
    && Elems(logs) == analyzed
    && NoDuplicates(logs) && NoDuplicates(queue)
    && (forall q :: q in queue ==> q !in analyzed)
    && SameBlock(cells, b, logs) && SameBlock(cells, b, queue)
    && (logs == [] ==> queue == [seed])
    && (logs != [] ==> GrownFrom(seed, logs) && QueueLinked(logs, queue))
    && ClosedUpTo(cells, b, logs, queue)
    && BreadthFirst(logs + queue)
  }

  /**
   * Visiting the queue's head keeps the logs and the queue duplicate-free,
   * disjoint and of kind `b`, when the newly queued cells are distinct, of
   * kind `b`, unvisited and not yet queued.
   */
  lemma QueueStep(cells: map<Pos, Block>, b: Block, logs: seq<Pos>, analyzed: set<Pos>, queue: seq<Pos>, unqueued: seq<Pos>)
    requires queue != [] && Elems(logs) == analyzed
    requires NoDuplicates(logs) && NoDuplicates(queue) && NoDuplicates(unqueued)
    requires forall q :: q in queue ==> q !in analyzed
    requires SameBlock(cells, b, logs) && SameBlock(cells, b, queue)
    requires forall q :: q in unqueued ==> q !in analyzed && q != queue[0] && q !in queue[1..] && BlockIn(cells, q) == b
    ensures Elems(logs + [queue[0]]) == analyzed + {queue[0]}
    ensures NoDuplicates(logs + [queue[0]]) && NoDuplicates(queue[1..] + unqueued)
    ensures forall q :: q in queue[1..] + unqueued ==> q !in analyzed + {queue[0]}
    ensures SameBlock(cells, b, logs + [queue[0]]) && SameBlock(cells, b, queue[1..] + unqueued)
  {
    var p, tail := queue[0], queue[1..];
    assert NoDuplicates(tail);
    DistinctConcat(tail, unqueued);
    assert p !in logs by {
      assert p in queue;
    }
    DistinctConcat(logs, [p]);
    forall q | q in tail + unqueued
      ensures q !in analyzed + {p}
    {
      if q in tail {
        var k :| 0 <= k < |tail| && tail[k] == q;
        assert queue[k + 1] == q;
      }
    }
    assert SameBlock(cells, b, logs + [p]) by {
      assert BlockIn(cells, queue[0]) == b;
    }
    forall k | 0 <= k < |tail + unqueued|
      ensures BlockIn(cells, (tail + unqueued)[k]) == b
    {
      if k < |tail| {
        assert (tail + unqueued)[k] == queue[k + 1];
      } else {
        assert (tail + unqueued)[k] in unqueued;
      }
    }
  }

  /**
   * Visiting the queue's head keeps the logs grown from the seed and every
   * queued cell linked to a log, when the newly queued cells neighbour the head.
   */
  lemma GrowthStep(seed: Pos, logs: seq<Pos>, queue: seq<Pos>, unqueued: seq<Pos>)
    requires queue != []
    requires logs == [] ==> queue == [seed]
    requires logs != [] ==> GrownFrom(seed, logs) && QueueLinked(logs, queue)
    requires forall q :: q in unqueued ==> Adjacent(queue[0], q)
    ensures GrownFrom(seed, logs + [queue[0]]) && QueueLinked(logs + [queue[0]], queue[1..] + unqueued)
  {
    var p := queue[0];
    var logs', newest := logs + [p], |logs|;
    assert forall i :: 0 <= i < |logs| ==> logs'[i] == logs[i];
    assert logs'[newest] == p;
    forall i | 0 < i < |logs'|
      ensures exists j :: 0 <= j < i && Adjacent(logs'[j], logs'[i])
    {
      if i < newest {
        var j :| 0 <= j < i && Adjacent(logs[j], logs[i]);
        assert Adjacent(logs'[j], logs'[i]);
      } else {
        assert p in queue;
        var j :| 0 <= j < |logs| && Adjacent(logs[j], p);
        assert Adjacent(logs'[j], logs'[i]);
      }
    }
    forall q | q in queue[1..] + unqueued
      ensures exists j :: 0 <= j < |logs'| && Adjacent(logs'[j], q)
    {
      if q in unqueued {
        assert Adjacent(logs'[newest], q);
      } else {
        assert q in queue && logs != [];
        var j :| 0 <= j < |logs| && Adjacent(logs[j], q);
        assert Adjacent(logs'[j], q);
      }
    }
  }

  /**
   * Visiting the queue's head keeps every same-kind neighbour of a log logged
   * or queued, when every cell of the head's scan ends up queued.
   */
  lemma ClosureStep(cells: map<Pos, Block>, b: Block, logs: seq<Pos>, queue: seq<Pos>, scan: seq<Pos>, unqueued: seq<Pos>)
    requires queue != [] && ClosedUpTo(cells, b, logs, queue)
    requires forall q :: Adjacent(queue[0], q) && BlockIn(cells, q) == b ==> q in logs || q == queue[0] || q in scan
    requires forall q :: q in scan ==> q in unqueued || q in queue[1..]
    ensures ClosedUpTo(cells, b, logs + [queue[0]], queue[1..] + unqueued)
  {
    var p, logs', tail := queue[0], logs + [queue[0]], queue[1..];
    forall i, q | 0 <= i < |logs'| && Adjacent(logs'[i], q) && BlockIn(cells, q) == b
      ensures q in logs' || q in tail + unqueued
    {
      if i < |logs| {
        assert logs'[i] == logs[i];
        if q in queue && q != p {
          var k :| 0 <= k < |queue| && queue[k] == q;
          assert tail[k - 1] == q;
        }
      }
    }
  }

  /**
   * A cell of kind `b` that is neither logged nor queued neighbours no log,
   * since every same-kind neighbour of a log is logged or queued.
   */
  lemma FreshNotNearLogs(cells: map<Pos, Block>, b: Block, logs: seq<Pos>, queue: seq<Pos>, unseen: seq<Pos>)
    requires queue != [] && ClosedUpTo(cells, b, logs, queue)
    requires forall q :: q in unseen ==> q !in logs && q != queue[0] && q !in Elems(queue[1..]) && BlockIn(cells, q) == b
    ensures forall j, q :: 0 <= j < |logs| && q in unseen ==> !Adjacent(logs[j], q)
  {
    forall j, q | 0 <= j < |logs| && q in unseen
      ensures !Adjacent(logs[j], q)
    {
      forall k | 0 <= k < |queue|
        ensures queue[k] != q
      {
        if k > 0 {
          assert queue[k] == queue[1..][k - 1];
        }
      }
      assert q !in queue;
    }
  }

  /**
   * One visit keeps the logs followed by the queue in breadth-first order: the
   * cells of the head's scan that are not yet queued join the queue.
   */
  lemma VisitOrder(cells: map<Pos, Block>, b: Block, seed: Pos, logs: seq<Pos>, analyzed: set<Pos>, queue: seq<Pos>,
                   scan: seq<Pos>)
    requires queue != [] && Elems(logs) == analyzed
    requires logs == [] ==> queue == [seed]
    requires logs != [] ==> GrownFrom(seed, logs) && QueueLinked(logs, queue)
    requires ClosedUpTo(cells, b, logs, queue) && BreadthFirst(logs + queue)
    requires IsNeighbourScan(cells, b, queue[0], analyzed + {queue[0]}, scan)
    ensures BreadthFirst(logs + [queue[0]] + (queue[1..] + Without(scan, Elems(queue[1..]))))
  {
    var p, tail := queue[0], queue[1..];
    var unqueued := Without(scan, Elems(tail));
    InScanOrderWithout(XZY, p, scan, Elems(tail));
    FreshNotNearLogs(cells, b, logs, queue, unqueued);
    OrderStep(seed, logs, queue, unqueued);
    assert logs + [p] + (tail + unqueued) == logs + queue + unqueued;
  }

  /**
   * One visit keeps the flood fill's state: the queue's head becomes a log,
   * and the neighbour list built for it, less the visited cells and less the
   * cells already queued, joins the queue's tail.
   */
  lemma VisitStep(cells: map<Pos, Block>, b: Block, seed: Pos, logs: seq<Pos>, analyzed: set<Pos>, queue: seq<Pos>,
                  ns: seq<Pos>, scanned: nat)
    requires FillState(cells, b, seed, logs, analyzed, queue) && queue != []
    requires scanned <= |ns| && IsNeighbourScan(cells, b, queue[0], analyzed + {queue[0]}, ns[..scanned])
    requires Elems(ns[scanned..]) == analyzed + {queue[0]}
    ensures queue[0] !in analyzed && BlockIn(cells, queue[0]) == b
    ensures FillState(cells, b, seed, logs + [queue[0]], analyzed + {queue[0]},
                      queue[1..] + Without(Without(ns, analyzed + {queue[0]}), Elems(queue[1..])))
  {
    var p, scan := queue[0], ns[..scanned];
    var tail := queue[1..];
    var unqueued := Without(scan, Elems(tail));
    ScanLessVisited(cells, b, p, analyzed + {p}, ns, scanned);
    assert p in queue;
    assert NoDuplicates(unqueued) by {
      InScanOrderDistinct(XZY, p, scan);
    }
    QueueStep(cells, b, logs, analyzed, queue, unqueued);
    assert GrownFrom(seed, logs + [p]) && QueueLinked(logs + [p], tail + unqueued) by {
      GrowthStep(seed, logs, queue, unqueued);
    }
    assert ClosedUpTo(cells, b, logs + [p], tail + unqueued) by {
      ClosureStep(cells, b, logs, queue, scan, unqueued);
    }
    VisitOrder(cells, b, seed, logs, analyzed, queue, scan);
  }

  /**
   * Finds the tree whose log is at `seed`: nothing when that block is not a
   * tree block, otherwise the cells of the seed's kind reachable from the seed
   * through 26-neighbours, each once, in breadth-first order.
   */
  method GetTree(world: World, classes: Classifier, seed: Pos) returns (r: Option<Tree>)
    requires world.BlockAt(seed) == Air ==> !classes.isTreeBlock(Air)
    ensures r.None? <==> !classes.isTreeBlock(world.BlockAt(seed))
    ensures r.Some? ==> r.value.world == world
    ensures r.Some? ==> GrownFrom(seed, r.value.logs)
    ensures r.Some? ==> SameBlock(world.cells, world.BlockAt(seed), r.value.logs)
    ensures r.Some? ==> NoDuplicates(r.value.logs)
    ensures r.Some? ==> Closed(world.cells, world.BlockAt(seed), r.value.logs)
    ensures r.Some? ==> forall q :: q in r.value.logs <==> Reachable(world.cells, world.BlockAt(seed), seed, q)
    ensures r.Some? ==> BreadthFirst(r.value.logs)
  {
    var logBlock := world.BlockAt(seed);
    if !classes.isTreeBlock(logBlock) {
      return None;
    }
    var toAnalyzePos := [seed];
    var analyzedPos: set<Pos> := {};
    var logs: seq<Pos> := [];
    ghost var sameKind := set q | q in world.cells && world.cells[q] == logBlock;
    while toAnalyzePos != []
      invariant FillState(world.cells, logBlock, seed, logs, analyzedPos, toAnalyzePos)
      decreases sameKind - analyzedPos
    {
      ghost var oldQueue, oldLogs, oldAnalyzed := toAnalyzePos, logs, analyzedPos;
      var analyzingPos := toAnalyzePos[0];
      toAnalyzePos := toAnalyzePos[1..];
      logs := logs + [analyzingPos];
      analyzedPos := analyzedPos + {analyzingPos};
      var nearbyPos, scanned := NeighborLogs(world, logBlock, analyzingPos, analyzedPos);
      VisitStep(world.cells, logBlock, seed, oldLogs, oldAnalyzed, oldQueue, nearbyPos, scanned);
      nearbyPos := Without(nearbyPos, analyzedPos);
      toAnalyzePos := toAnalyzePos + Without(nearbyPos, Elems(toAnalyzePos));
    }
    LogsAreComponent(world.cells, logBlock, seed, logs);
    assert logs + toAnalyzePos == logs;
    r := Some(Tree(world, logs));
  }
}
