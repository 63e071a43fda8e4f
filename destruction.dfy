/**
 * Tree destruction: the tool's use budget, the felling of the first logs of a
 * discovered tree in discovery order, and the sweep that clears leaves around
 * the highest log once the whole tree is down.
 */
module Destruction {
  import opened Seqs
  import opened ScanOrder
  import opened Voxel
  import opened Discovery

  /** Java's `Integer.MAX_VALUE`: the budget of a tool that never wears. */
  const IntMax := 0x7FFF_FFFF

  /** The tool settings: `damageMultiplicand` is the damage charged per felled log. */
  datatype ToolsConfig = ToolsConfig(ignoreDurabilityLoss: bool, damageMultiplicand: int, preserve: bool)

  /** The tree settings: the radius of the leaf sweep, which is off when not positive. */
  datatype TreesConfig = TreesConfig(leavesBreakingForceRadius: int)

  /** The configuration, read and never changed by the handler. */
  datatype Config = Config(tools: ToolsConfig, trees: TreesConfig)

  /** The item the player breaks the tree with. */
  class Tool {
    const damageable: bool
    const maxDamage: int
    var damage: int

    /** Wears the tool by `amount`; a tool that cannot be damaged is left as it is. */
    method DamageItem(amount: int)
      modifies this
      ensures damage == old(damage) + (if damageable then amount else 0)
    {
      if damageable {
        damage := damage + amount;
      }
    }
  }

  /** The player who breaks the tree; only the "item used" statistic is observed. */
  class Player {
    var itemsUsed: seq<Block>

    /** Counts one use of the item of block `b`. */
    method AddItemUsedStat(b: Block)
      modifies this
      ensures itemsUsed == old(itemsUsed) + [b]
    {
      itemsUsed := itemsUsed + [b];
    }
  }

  // ---------------------------------------------------------------------------
  // The use budget

  function Min(a: int, b: int): int
  {
    if a <= b then a else b
  }

  function Abs(a: int): int
  {
    if a < 0 then -a else a
  }

  /**
   * Java's `int` division, which truncates toward zero: what is left over
   * has the dividend's sign and is smaller than the divisor in size.
   */
  function JavaDiv(a: int, b: int): (r: int)
    requires b != 0
    ensures 0 <= a ==> 0 <= a - r * b < Abs(b)
    ensures a < 0 ==> -Abs(b) < a - r * b <= 0
  {
    var q := Abs(a) / Abs(b);
    var r := if (a < 0) == (b < 0) then q else -q;
    DivideMagnitudes(a, b, q, r);
    r
  }

  /** The product behind `JavaDiv`: the divisor's multiple has the dividend's sign. */
  lemma DivideMagnitudes(a: int, b: int, q: int, r: int)
    requires b != 0 && q == Abs(a) / Abs(b)
    requires r == if (a < 0) == (b < 0) then q else -q
    ensures 0 <= Abs(a) - q * Abs(b) < Abs(b)
    ensures r * b == if a < 0 then -(q * Abs(b)) else q * Abs(b)
  {
    if b < 0 {
      assert r * b == -(r * Abs(b));
    }
  }

  /** The uses a tool is spared: one when `preserve` is set. */
  function Kept(tools: ToolsConfig): int
  {
    if tools.preserve then 1 else 0
  }

  /**
   * The damage felling `count` logs charges the tool: the multiplicand per
   * log, unless durability loss is ignored or the tool cannot be damaged.
   */
  function Wear(damageable: bool, tools: ToolsConfig, count: nat): int
  {
    if !tools.ignoreDurabilityLoss && damageable then count * tools.damageMultiplicand else 0
  }

  /**
   * The tool takes no damage from felling: it cannot be damaged, or
   * durability loss is ignored. This is the test behind the unbounded budget,
   * and it agrees with the damage the felling actually charges.
   */
  predicate NoToolLoss(damageable: bool, tools: ToolsConfig): (r: bool)
    ensures r ==> forall n: nat :: Wear(damageable, tools, n) == 0
    ensures !r ==> forall n: nat :: Wear(damageable, tools, n) == n * tools.damageMultiplicand
  {
    !damageable || tools.ignoreDurabilityLoss
  }

  /**
   * How many logs the tool may fell: unbounded (Java's largest `int`) when it
   * takes no damage, otherwise the number of whole damage steps its remaining
   * durability allows; one fewer when `preserve` is set.
   */
  function UsesLeft(damageable: bool, maxDamage: int, damage: int, tools: ToolsConfig): (r: int)
    requires tools.damageMultiplicand >= 1
    ensures NoToolLoss(damageable, tools) ==> r >= IntMax - 1
    ensures (!NoToolLoss(damageable, tools) && r >= 1)
              ==> damage + (r + Kept(tools)) * tools.damageMultiplicand <= maxDamage
    ensures (!NoToolLoss(damageable, tools) && damage <= maxDamage)
              ==> maxDamage < damage + (r + Kept(tools) + 1) * tools.damageMultiplicand
    ensures !NoToolLoss(damageable, tools) && maxDamage < damage ==> r < 1
  {
    var uses := if NoToolLoss(damageable, tools) then IntMax
                else JavaDiv(maxDamage - damage, tools.damageMultiplicand);
    uses - Kept(tools)
  }

  /**
   * Felling never wears a tool past its durability: every log felled charges
   * the multiplicand, and the logs felled are at most the budget, so the
   * final damage stays within the maximum (and one use short of it under
   * `preserve`).
   */
  lemma FellingFitsDurability(damageable: bool, maxDamage: int, damage: int, tools: ToolsConfig, logCount: nat)
    requires tools.damageMultiplicand >= 1
    requires UsesLeft(damageable, maxDamage, damage, tools) >= 1
    ensures var k := Min(UsesLeft(damageable, maxDamage, damage, tools), logCount);
            !NoToolLoss(damageable, tools) ==> damage + (k + Kept(tools)) * tools.damageMultiplicand <= maxDamage
  {
    var r := UsesLeft(damageable, maxDamage, damage, tools);
    var k := Min(r, logCount);
    var m := tools.damageMultiplicand;
    assert (k + Kept(tools)) * m <= (r + Kept(tools)) * m by {
      assert (r + Kept(tools)) * m - (k + Kept(tools)) * m == (r - k) * m;
    }
  }

  // ---------------------------------------------------------------------------
  // Felling the logs

  /** The block each log holds when the felling reaches it; logs earlier in the list are already air. */
  function ReadBlocks(cells: map<Pos, Block>, logs: seq<Pos>): (r: seq<Block>)
    ensures |r| == |logs|
    decreases |logs|
  {
    if logs == [] then []
    else
      var n := |logs| - 1;
      ReadBlocks(cells, logs[..n]) + [BlockIn(cells - Elems(logs[..n]), logs[n])]
  }

  /** The engine calls made when felling `logs` in order: each is harvested, then destroyed without drops. */
  function FellEvents(cells: map<Pos, Block>, logs: seq<Pos>): (r: seq<Event>)
    ensures |r| == 2 * |logs|
    decreases |logs|
  {
    if logs == [] then []
    else
      var n := |logs| - 1;
      FellEvents(cells, logs[..n]) + [Harvested(logs[n], BlockIn(cells - Elems(logs[..n]), logs[n])), Destroyed(logs[n], false)]
  }

  /**
   * The felling calls come in pairs, one pair per log and in the logs'
   * order: the harvest of the block the log holds, then its non-dropping
   * destruction.
   */
  lemma {:induction false} FellEventsPaired(cells: map<Pos, Block>, logs: seq<Pos>)
    ensures forall i :: 0 <= i < |logs| ==>
              && FellEvents(cells, logs)[2 * i] == Harvested(logs[i], ReadBlocks(cells, logs)[i])
              && FellEvents(cells, logs)[2 * i + 1] == Destroyed(logs[i], false)
    decreases |logs|
  {
    if logs != [] {
      var n := |logs| - 1;
      FellEventsPaired(cells, logs[..n]);
      forall i | 0 <= i < n
        ensures FellEvents(cells, logs)[2 * i] == Harvested(logs[i], ReadBlocks(cells, logs)[i])
        ensures FellEvents(cells, logs)[2 * i + 1] == Destroyed(logs[i], false)
      {
        assert logs[..n][i] == logs[i];
        assert ReadBlocks(cells, logs)[i] == ReadBlocks(cells, logs[..n])[i];
        assert FellEvents(cells, logs)[2 * i] == FellEvents(cells, logs[..n])[2 * i];
        assert FellEvents(cells, logs)[2 * i + 1] == FellEvents(cells, logs[..n])[2 * i + 1];
      }
    }
  }

  /**
   * When the logs are distinct and all of kind `b`, as a discovered tree's
   * are, every felled log yields a harvest and an "item used" statistic of
   * kind `b`.
   */
  lemma {:induction false} ReadBlocksOfTree(cells: map<Pos, Block>, b: Block, logs: seq<Pos>)
    requires NoDuplicates(logs) && SameBlock(cells, b, logs)
    ensures forall i :: 0 <= i < |logs| ==> ReadBlocks(cells, logs)[i] == b
    decreases |logs|
  {
    if logs != [] {
      var n := |logs| - 1;
      assert logs[n] !in Elems(logs[..n]);
      ReadBlocksOfTree(cells, b, logs[..n]);
    }
  }

  /**
   * Felling a prefix of distinct logs leaves air at those logs and every later
   * log as it stood.
   */
  lemma FelledPrefix(cells: map<Pos, Block>, logs: seq<Pos>, k: nat)
    requires NoDuplicates(logs) && k <= |logs|
    ensures forall i :: 0 <= i < k ==> BlockIn(cells - Elems(logs[..k]), logs[i]) == Air
    ensures forall i :: k <= i < |logs| ==> BlockIn(cells - Elems(logs[..k]), logs[i]) == BlockIn(cells, logs[i])
  {
    forall i | 0 <= i < k
      ensures logs[i] in Elems(logs[..k])
    {
      assert logs[..k][i] == logs[i];
    }
    forall i | k <= i < |logs|
      ensures logs[i] !in Elems(logs[..k])
    {
    }
  }

  /** Felling one more log extends the cells removed, the reads and the calls by that log. */
  lemma FellOneMore(cells: map<Pos, Block>, logs: seq<Pos>, i: nat)
    requires i < |logs|
    ensures cells - Elems(logs[..i + 1]) == (cells - Elems(logs[..i])) - {logs[i]}
    ensures ReadBlocks(cells, logs[..i + 1]) == ReadBlocks(cells, logs[..i]) + [BlockIn(cells - Elems(logs[..i]), logs[i])]
    ensures FellEvents(cells, logs[..i + 1])
              == FellEvents(cells, logs[..i]) + [Harvested(logs[i], BlockIn(cells - Elems(logs[..i]), logs[i])), Destroyed(logs[i], false)]
  {
    assert logs[..i + 1][..i] == logs[..i];
    assert Elems(logs[..i + 1]) == Elems(logs[..i]) + {logs[i]};
  }

  /**
   * Fells the first `count` logs in order. Each one is read, the tool takes
   * `damageMultiplicand` damage unless durability loss is ignored, the
   * player's "item used" statistic counts the block, the block is harvested
   * and then destroyed without drops.
   */
  method FellLogs(world: World, logs: seq<Pos>, count: nat, player: Player, tool: Tool, tools: ToolsConfig)
    requires count <= |logs|
    modifies world, player, tool
    ensures world.cells == old(world.cells) - Elems(logs[..count])
    ensures world.events == old(world.events) + FellEvents(old(world.cells), logs[..count])
    ensures player.itemsUsed == old(player.itemsUsed) + ReadBlocks(old(world.cells), logs[..count])
    ensures tool.damage == old(tool.damage) + Wear(tool.damageable, tools, count)
  {
    ghost var c0, ev0, used0, damage0 := world.cells, world.events, player.itemsUsed, tool.damage;
    var i := 0;
    while i < count
      invariant i <= count
      invariant world.cells == c0 - Elems(logs[..i])
      invariant world.events == ev0 + FellEvents(c0, logs[..i])
      invariant player.itemsUsed == used0 + ReadBlocks(c0, logs[..i])
      invariant tool.damage == damage0 + Wear(tool.damageable, tools, i)
    {
      var logPos := logs[i];
      FellOneMore(c0, logs, i);
      var logState := world.BlockAt(logPos);
      if !tools.ignoreDurabilityLoss {
        tool.DamageItem(tools.damageMultiplicand);
      }
      player.AddItemUsedStat(logState);
      world.HarvestBlock(logPos, logState);
      world.DestroyBlock(logPos, false);
      i := i + 1;
    }
  }

  // ---------------------------------------------------------------------------
  // The highest log

  /**
   * The fold behind `max` with a comparator on `y`: the accumulator is kept
   * unless the next cell is strictly higher, so among equally high cells the
   * earliest wins.
   */
  function HigherOf(acc: Pos, rest: seq<Pos>): (r: Pos)
    ensures r == acc || r in rest
    ensures acc.y <= r.y && forall q :: q in rest ==> q.y <= r.y
    ensures r == acc || acc.y < r.y
    decreases |rest|
  {
    if rest == [] then acc
    else HigherOf(if acc.y >= rest[0].y then acc else rest[0], rest[1..])
  }

  /**
   * When the fold replaces its accumulator, it returns the first cell of the
   * rest that is as high as the result: every cell before it is strictly lower.
   */
  lemma {:induction false} HigherOfFirst(acc: Pos, rest: seq<Pos>)
    ensures var r := HigherOf(acc, rest);
            acc.y < r.y ==> exists i :: 0 <= i < |rest| && rest[i] == r && forall j :: 0 <= j < i ==> rest[j].y < r.y
    decreases |rest|
  {
    if rest != [] {
      var next := if acc.y >= rest[0].y then acc else rest[0];
      var r := HigherOf(next, rest[1..]);
      assert HigherOf(acc, rest) == r;
      HigherOfFirst(next, rest[1..]);
      if acc.y < r.y {
        if next.y < r.y {
          var i :| 0 <= i < |rest[1..]| && rest[1..][i] == r && forall j :: 0 <= j < i ==> rest[1..][j].y < r.y;
          assert rest[i + 1] == r;
          assert forall j :: 0 <= j < i + 1 ==> rest[j].y < r.y by {
            forall j | 0 <= j < i + 1
              ensures rest[j].y < r.y
            {
              if j > 0 {
                assert rest[j] == rest[1..][j - 1];
              }
            }
          }
        } else {
          assert rest[0] == r;
        }
      }
    }
  }

  /**
   * The highest log: nothing for an empty list, otherwise the first log of
   * greatest `y`.
   */
  function TopLog(logs: seq<Pos>): (r: Option<Pos>)
    ensures r.None? <==> logs == []
    ensures r.Some? ==> exists i :: 0 <= i < |logs| && logs[i] == r.value
    ensures r.Some? ==> forall q :: q in logs ==> q.y <= r.value.y
    ensures r.Some? ==> exists i :: 0 <= i < |logs| && logs[i] == r.value && forall j :: 0 <= j < i ==> logs[j].y < r.value.y
  {
    if logs == [] then None
    else
      var top := HigherOf(logs[0], logs[1..]);
      HigherOfFirst(logs[0], logs[1..]);
      assert top == logs[0] || top in logs[1..];
      assert top == logs[0] || (exists i :: 0 <= i < |logs[1..]| && logs[1..][i] == top && forall j :: 0 <= j < i ==> logs[1..][j].y < top.y);
      Some(top)
  }

  // ---------------------------------------------------------------------------
  // The leaf sweep

  /** `q` lies in the half-open cube `[-r, r)` on each axis around `top`. */
  predicate InSweep(top: Pos, r: int, q: Pos)
  {
    -r <= q.x - top.x < r && -r <= q.y - top.y < r && -r <= q.z - top.z < r
  }

  /**
   * `s` is what the sweep around `top` clears: the cells of its cube holding a
   * leaf, each once, in the sweep's order (loops over x, then y, then z).
   */
  ghost predicate IsSweep(cells: map<Pos, Block>, top: Pos, r: int, isLeaf: Block -> bool, s: seq<Pos>)
  {
    && InScanOrder(XYZ, top, s)
    && forall q :: q in s <==> InSweep(top, r, q) && isLeaf(BlockIn(cells, q))
  }

  /** `s` is what the sweep has cleared before its loop counters reach `t`. */
  ghost predicate SweptBefore(cells: map<Pos, Block>, top: Pos, r: int, isLeaf: Block -> bool, s: seq<Pos>, t: Counters)
  {
    && InScanOrder(XYZ, top, s)
    && forall q :: q in s <==> InSweep(top, r, q) && isLeaf(BlockIn(cells, q)) && VisitedBefore(XYZ, top, q, t)
  }

  /** The engine calls made when clearing the leaf cells `s` in order: drops spawned, then the block removed. */
  function SweepEvents(cells: map<Pos, Block>, s: seq<Pos>): (r: seq<Event>)
    ensures |r| == 2 * |s|
    decreases |s|
  {
    if s == [] then []
    else
      var n := |s| - 1;
      SweepEvents(cells, s[..n]) + [DropsSpawned(s[n], BlockIn(cells, s[n])), Removed(s[n])]
  }

  /**
   * Visiting the cell `p` at counters `d` inside the cube: it has not been
   * cleared yet, so the world still shows its original block.
   */
  lemma SweepUnvisited(cells: map<Pos, Block>, top: Pos, r: int, isLeaf: Block -> bool, s: seq<Pos>, d: Counters, p: Pos)
    requires SweptBefore(cells, top, r, isLeaf, s, d)
    requires p == Pos(top.x + d.0, top.y + d.1, top.z + d.2)
    ensures BlockIn(cells - Elems(s), p) == BlockIn(cells, p)
  {
    assert CountersOf(XYZ, top, p) == d;
    assert p !in s;
  }

  /** A cell of the cube that holds no leaf is passed over. */
  lemma SweepSkip(cells: map<Pos, Block>, top: Pos, r: int, isLeaf: Block -> bool, s: seq<Pos>, d: Counters, p: Pos)
    requires SweptBefore(cells, top, r, isLeaf, s, d)
    requires p == Pos(top.x + d.0, top.y + d.1, top.z + d.2)
    requires !isLeaf(BlockIn(cells, p))
    ensures SweptBefore(cells, top, r, isLeaf, s, (d.0, d.1, d.2 + 1))
  {
    assert CountersOf(XYZ, top, p) == d;
  }

  /** A cell of the cube that holds a leaf is cleared: removed from the world, with its two calls logged. */
  lemma SweepClear(cells: map<Pos, Block>, events: seq<Event>, top: Pos, r: int, isLeaf: Block -> bool, s: seq<Pos>, d: Counters, p: Pos)
    requires SweptBefore(cells, top, r, isLeaf, s, d)
    requires -r <= d.0 < r && -r <= d.1 < r && -r <= d.2 < r
    requires p == Pos(top.x + d.0, top.y + d.1, top.z + d.2)
    requires isLeaf(BlockIn(cells, p))
    ensures SweptBefore(cells, top, r, isLeaf, s + [p], (d.0, d.1, d.2 + 1))
    ensures cells - Elems(s + [p]) == (cells - Elems(s)) - {p}
    ensures events + SweepEvents(cells, s + [p]) == events + SweepEvents(cells, s) + [DropsSpawned(p, BlockIn(cells, p)), Removed(p)]
  {
    assert SweptBefore(cells, top, r, isLeaf, s + [p], (d.0, d.1, d.2 + 1)) by {
      assert CountersOf(XYZ, top, p) == d;
      AppendInScanOrder(XYZ, top, s, p);
    }
    assert cells - Elems(s + [p]) == (cells - Elems(s)) - {p} by {
      assert Elems(s + [p]) == Elems(s) + {p};
    }
    assert SweepEvents(cells, s + [p]) == SweepEvents(cells, s) + [DropsSpawned(p, BlockIn(cells, p)), Removed(p)] by {
      assert (s + [p])[..|s|] == s;
    }
  }

  /** The innermost loop's end, counter `r`, is the next row's start, counter `-r`. */
  lemma SweepNextRow(cells: map<Pos, Block>, top: Pos, r: int, isLeaf: Block -> bool, s: seq<Pos>, a: int, b: int)
    requires SweptBefore(cells, top, r, isLeaf, s, (a, b, r))
    ensures SweptBefore(cells, top, r, isLeaf, s, (a, b + 1, -r))
  {
  }

  /** The middle loop's end, counter `r`, is the next slice's start, counter `-r`. */
  lemma SweepNextSlice(cells: map<Pos, Block>, top: Pos, r: int, isLeaf: Block -> bool, s: seq<Pos>, a: int)
    requires SweptBefore(cells, top, r, isLeaf, s, (a, r, -r))
    ensures SweptBefore(cells, top, r, isLeaf, s, (a + 1, -r, -r))
  {
  }

  /**
   * Once the outermost loop is done the sweep is complete, and a cell is
   * left as air exactly when it lies in the cube and held a leaf.
   */
  lemma SweepEnd(cells: map<Pos, Block>, top: Pos, r: int, isLeaf: Block -> bool, s: seq<Pos>)
    requires SweptBefore(cells, top, r, isLeaf, s, (if r <= 0 then -r else r, -r, -r))
    ensures IsSweep(cells, top, r, isLeaf, s)
    ensures forall q :: BlockIn(cells - Elems(s), q) == if InSweep(top, r, q) && isLeaf(BlockIn(cells, q)) then Air else BlockIn(cells, q)
  {
  }

  /** The world once the cells `s` are cleared from `cells`, with the calls that cleared them logged after `events`. */
  ghost predicate SweptWorld(cells: map<Pos, Block>, events: seq<Event>, cells': map<Pos, Block>, events': seq<Event>, s: seq<Pos>)
  {
    cells' == cells - Elems(s) && events' == events + SweepEvents(cells, s)
  }

  /**
   * Clears the leaves around `top`: every cell of the half-open cube
   * `[-radius, radius)` that holds a leaf has its drops spawned and is then
   * removed; every other cell keeps its block.
   */
  method ClearLeaves(world: World, top: Pos, radius: int, isLeaf: Block -> bool) returns (ghost cleared: seq<Pos>)
    modifies world
    ensures IsSweep(old(world.cells), top, radius, isLeaf, cleared)
    ensures world.cells == old(world.cells) - Elems(cleared)
    ensures world.events == old(world.events) + SweepEvents(old(world.cells), cleared)
    ensures forall q :: world.BlockAt(q)
              == if InSweep(top, radius, q) && isLeaf(BlockIn(old(world.cells), q)) then Air else BlockIn(old(world.cells), q)
  {
    ghost var c0, ev0 := world.cells, world.events;
    cleared := [];
    var dx := -radius;
    while dx < radius
      invariant radius <= 0 || -radius <= dx <= radius
      invariant SweptBefore(c0, top, radius, isLeaf, cleared, (dx, -radius, -radius))
      invariant SweptWorld(c0, ev0, world.cells, world.events, cleared)
    {
      var dy := -radius;
      while dy < radius
        invariant -radius <= dy <= radius
        invariant SweptBefore(c0, top, radius, isLeaf, cleared, (dx, dy, -radius))
        invariant SweptWorld(c0, ev0, world.cells, world.events, cleared)
      {
        var dz := -radius;
        while dz < radius
          invariant -radius <= dz <= radius
          invariant SweptBefore(c0, top, radius, isLeaf, cleared, (dx, dy, dz))
          invariant SweptWorld(c0, ev0, world.cells, world.events, cleared)
        {
          var checkPos := Pos(top.x + dx, top.y + dy, top.z + dz);
          SweepUnvisited(c0, top, radius, isLeaf, cleared, (dx, dy, dz), checkPos);
          var checkBlock := world.BlockAt(checkPos);
          if isLeaf(checkBlock) {
            SweepClear(c0, ev0, top, radius, isLeaf, cleared, (dx, dy, dz), checkPos);
            world.SpawnDrops(checkPos, checkBlock);
            world.RemoveBlock(checkPos);
            cleared := cleared + [checkPos];
          } else {
            SweepSkip(c0, top, radius, isLeaf, cleared, (dx, dy, dz), checkPos);
          }
          dz := dz + 1;
        }
        SweepNextRow(c0, top, radius, isLeaf, cleared, dx, dy);
        dy := dy + 1;
      }
      SweepNextSlice(c0, top, radius, isLeaf, cleared, dx);
      dx := dx + 1;
    }
    SweepEnd(c0, top, radius, isLeaf, cleared);
  }

  // ---------------------------------------------------------------------------
  // Destroying a tree

  /**
   * Fells a discovered tree with `tool`. It fails, changing nothing, when the
   * tool's budget is below one use. Otherwise it fells the first
   * `min(budget, log count)` logs in discovery order; and when the whole tree
   * is felled (the tool takes no damage or the budget covers every log) and
   * the leaf radius is positive, it then clears the leaves around the first
   * highest log.
   */
  method Destroy(tree: Tree, player: Player, tool: Tool, cfg: Config, classes: Classifier) returns (ok: bool, ghost cleared: seq<Pos>)
    requires cfg.tools.damageMultiplicand >= 1
    modifies tree.world, player, tool
    ensures var uses := UsesLeft(tool.damageable, tool.maxDamage, old(tool.damage), cfg.tools);
            ok <==> uses >= 1
    ensures !ok ==> unchanged(tree.world, player, tool)
    ensures ok ==>
              var uses := UsesLeft(tool.damageable, tool.maxDamage, old(tool.damage), cfg.tools);
              var k := Min(uses, |tree.logs|);
              var felled := old(tree.world.cells) - Elems(tree.logs[..k]);
              var sweep := (NoToolLoss(tool.damageable, cfg.tools) || uses >= |tree.logs|)
                           && cfg.trees.leavesBreakingForceRadius > 0 && tree.logs != [];
              && 0 <= k <= |tree.logs|
              && player.itemsUsed == old(player.itemsUsed) + ReadBlocks(old(tree.world.cells), tree.logs[..k])
              && tool.damage == old(tool.damage)
                   + (if !NoToolLoss(tool.damageable, cfg.tools) then k * cfg.tools.damageMultiplicand else 0)
              && (!sweep ==> cleared == [] && tree.world.cells == felled
                             && tree.world.events == old(tree.world.events) + FellEvents(old(tree.world.cells), tree.logs[..k]))
              && (sweep ==> IsSweep(felled, TopLog(tree.logs).value, cfg.trees.leavesBreakingForceRadius, classes.isLeafBlock, cleared)
                            && tree.world.cells == felled - Elems(cleared)
                            && tree.world.events == old(tree.world.events) + FellEvents(old(tree.world.cells), tree.logs[..k])
                                                    + SweepEvents(felled, cleared))
  {
    var world := tree.world;
    var noToolLoss := !tool.damageable || cfg.tools.ignoreDurabilityLoss;
    var damageMultiplicand := cfg.tools.damageMultiplicand;
    var toolUsesLeft := if noToolLoss then IntMax else JavaDiv(tool.maxDamage - tool.damage, damageMultiplicand);
    if cfg.tools.preserve {
      toolUsesLeft := toolUsesLeft - 1;
    }
    cleared := [];
    if toolUsesLeft < 1 {
      return false, cleared;
    }
    var isTreeFullyBroken := noToolLoss || toolUsesLeft >= tree.LogCount();
    FellLogs(world, tree.logs, Min(toolUsesLeft, |tree.logs|), player, tool, cfg.tools);
    if isTreeFullyBroken {
      var radius := cfg.trees.leavesBreakingForceRadius;
      if radius > 0 {
        var top := TopLog(tree.logs);
        if top.Some? {
          cleared := ClearLeaves(world, top.value, radius, classes.isLeafBlock);
        }
      }
    }
    return true, cleared;
  }
}
