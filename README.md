# FallingTree tree handler, modelled in Dafny

FallingTree is a Minecraft mod that fells a whole tree when a player breaks
one of its logs. This project models its tree handler and proves properties
of the model. The handler has two parts.

- **Discovery** (`getTree`, `neighborLogs`, `isSameLog`) is a breadth-first
  flood fill. It starts at the struck block and spreads over the 26
  neighbours of each cell. It collects every cell holding the same block kind
  as the struck block. It keeps a FIFO queue, a visited set and the tree's
  ordered list of logs.
- **Destruction** (`destroy`) works out how many logs the tool may still
  fell. It fails when that budget is below one. Otherwise it fells the first
  logs in discovery order, wearing the tool and counting a statistic for each
  one. When the whole tree came down, it clears the leaves in a cube around
  the highest log.

The world is a class holding two things. `cells` is a finite map from
positions to block kinds; a missing position is air. `events` is the ordered
list of the engine calls the handler has made: harvest, destroy, spawn drops
and remove. The tool and the player are classes whose fields the handler
updates. The configuration is a read-only value passed in as a parameter.

The files are:

- `seqs.dfy` (module `Seqs`): list helpers. It holds the list filter behind
  `removeAll` and `filter`.
- `voxel.dfy` (module `Voxel`): positions, blocks, adjacency, engine events
  and the `World` class.
- `scanorder.dfy` (module `ScanOrder`): the order in which three nested
  counting loops visit the cells of a cube. A list "in scan order" is
  strictly increasing in the lexicographic order of the loop counters. Two
  lists in scan order with the same elements are equal.
- `discovery.dfy` (module `Discovery`): the flood fill and its
  connected-component theorem.
- `destruction.dfy` (module `Destruction`): the budget, the felling, the
  highest log and the leaf sweep.

`GetTree` has no `modifies` clause, so discovery provably leaves the world
untouched. `IsSameLog` is the block-equality test that `NeighborLogs` uses.

Discovery's order is pinned down by `BreadthFirst`. For each log past the
seed, take the index of the first log in the list that neighbours it (its
"parent"). Along the list these indices never decrease. Logs with the same
parent come in the order of that parent's neighbour scan.

## Model

| member | source | states |
|---|---|---|
| Discovery.GetTree | src/main/java/fr/raksrinana/fallingtree/tree/TreeHandler.java:21-39 | No tree when the seed's block is not a tree block, and a tree otherwise. The tree's logs start at the seed, and every later log neighbours an earlier one. All logs hold the seed's block, none appears twice, and every same-kind neighbour of a log is a log. The logs are exactly the cells reachable from the seed through same-kind neighbours. The logs come in breadth-first order: parents never decrease along the list, and siblings follow their parent's x-then-z-then-y scan. The world is only read. Only a struck air cell that counts as a tree block is excluded. |
| Discovery.VisitStep | src/main/java/fr/raksrinana/fallingtree/tree/TreeHandler.java:30-37 | One pass of the loop keeps the flood fill's invariant. The popped head was unvisited and of the seed's kind. Logs and queue stay duplicate-free, disjoint, of the seed's kind and grown from the seed. Every queued cell neighbours a log. Every same-kind neighbour of a log is logged or queued. The logs followed by the queue stay in breadth-first order. |
| Discovery.VisitOrder | src/main/java/fr/raksrinana/fallingtree/tree/TreeHandler.java:31-36 | After a visit, the logs followed by the queue are still in breadth-first order. The newly queued cells neighbour the popped head and no earlier log, and they keep the scan's order. |
| Discovery.OrderStep | src/main/java/fr/raksrinana/fallingtree/tree/TreeHandler.java:31-36 | Appending, behind the queue, cells that neighbour the head and no earlier log, in the head's scan order, keeps the logs followed by the queue in breadth-first order. |
| Discovery.ParentsKept | src/main/java/fr/raksrinana/fallingtree/tree/TreeHandler.java:31-36 | Past the seed, the first neighbour of every logged or queued cell is a log. Appending to the queue does not move it. |
| Discovery.FreshNotNearLogs | src/main/java/fr/raksrinana/fallingtree/tree/TreeHandler.java:34-36 | A same-kind cell that is neither logged nor queued neighbours no log. |
| Discovery.NewParents | src/main/java/fr/raksrinana/fallingtree/tree/TreeHandler.java:34-36 | A cell that neighbours the popped head and no earlier log has the head as its first neighbour. |
| Discovery.FirstAdjacent | src/main/java/fr/raksrinana/fallingtree/tree/TreeHandler.java:34-36 | The index of the first list cell neighbouring a cell: that cell neighbours it, and no earlier one does. The list length means there is none. |
| Discovery.FirstAdjacentKept | src/main/java/fr/raksrinana/fallingtree/tree/TreeHandler.java:36 | Appending to a list does not move the first neighbour of a cell already neighboured in it. |
| Discovery.ScanLessVisited | src/main/java/fr/raksrinana/fallingtree/tree/TreeHandler.java:34-35 | Removing the visited cells from the neighbour list leaves exactly the scan of the cube. |
| Discovery.QueueStep | src/main/java/fr/raksrinana/fallingtree/tree/TreeHandler.java:31-36 | Popping the head into the logs and appending unvisited, not-yet-queued cells of the seed's kind keeps logs and queue duplicate-free, disjoint and of that kind. The logs and the visited set stay equal as sets. |
| Discovery.GrowthStep | src/main/java/fr/raksrinana/fallingtree/tree/TreeHandler.java:31-36 | After a visit, the logs still start at the seed with each later log neighbouring an earlier one. Every queued cell still neighbours a log. |
| Discovery.ClosureStep | src/main/java/fr/raksrinana/fallingtree/tree/TreeHandler.java:31-36 | After a visit, every same-kind neighbour of a log is still logged or queued. |
| Discovery.IsSameLog | src/main/java/fr/raksrinana/fallingtree/tree/TreeHandler.java:59-61 | For a non-air kind, true exactly when the world stores that kind at the cell. For air, true exactly when the world stores nothing or air there. |
| Discovery.Tree.LogCount | src/main/java/fr/raksrinana/fallingtree/tree/TreeHandler.java:74 | The number of logs. For a duplicate-free list, such as a discovered tree's, it is the number of distinct log cells. |
| Discovery.NeighborLogs | src/main/java/fr/raksrinana/fallingtree/tree/TreeHandler.java:42-57 | The result starts with the scan of the 3x3x3 cube around the cell. The scan holds exactly the unvisited same-kind cells, centre included, in x-then-z-then-y loop order. Every visited position follows, in unspecified order. So a cell is in the list exactly when it was visited or is a same-kind cell of the cube. |
| Discovery.GrownReachable | src/main/java/fr/raksrinana/fallingtree/tree/TreeHandler.java:29-36 | Every log of a list grown from the seed, all of the seed's kind, is reachable from the seed by a walk over same-kind neighbours. |
| Discovery.ClosedHoldsReachable | src/main/java/fr/raksrinana/fallingtree/tree/TreeHandler.java:30-37 | Every cell reachable from the seed lies in a neighbour-closed log list that holds the seed. |
| Discovery.LogsAreComponent | src/main/java/fr/raksrinana/fallingtree/tree/TreeHandler.java:26-38 | A grown, same-kind, closed log list is exactly the connected component of the seed (both directions). |
| Seqs.Without | src/main/java/fr/raksrinana/fallingtree/tree/TreeHandler.java:35-36 | Removing a set from a list keeps exactly the members outside the set. It never lengthens the list and keeps it duplicate-free. |
| Seqs.WithoutConcat | src/main/java/fr/raksrinana/fallingtree/tree/TreeHandler.java:35-36 | Removal distributes over concatenation. With `WithoutSingle`, this says the survivors keep their original order. |
| Seqs.WithoutSingle | src/main/java/fr/raksrinana/fallingtree/tree/TreeHandler.java:35-36 | A one-element list is kept whole when its element is outside the set and dropped otherwise. |
| Seqs.DistinctCount | src/main/java/fr/raksrinana/fallingtree/tree/TreeHandler.java:74 | A duplicate-free list has as many distinct elements as its length. |
| Seqs.RemoveAllAfterAddAll | src/main/java/fr/raksrinana/fallingtree/tree/TreeHandler.java:34-35 | The visited positions appended by the neighbour scan are removed again, so what is left is exactly the scan. |
| Seqs.DistinctConcat | src/main/java/fr/raksrinana/fallingtree/tree/TreeHandler.java:36 | Appending only not-yet-queued cells keeps the queue duplicate-free. |
| ScanOrder.AppendInScanOrder | src/main/java/fr/raksrinana/fallingtree/tree/TreeHandler.java:45-51 | A list in scan order stays in scan order when a cell the loops reach later is appended. |
| ScanOrder.InScanOrderDistinct | src/main/java/fr/raksrinana/fallingtree/tree/TreeHandler.java:45-51 | A list in scan order has no duplicates. |
| ScanOrder.InScanOrderWithout | src/main/java/fr/raksrinana/fallingtree/tree/TreeHandler.java:35-36 | Dropping cells from a list in scan order leaves it in scan order. |
| ScanOrder.InScanOrderUnique | src/main/java/fr/raksrinana/fallingtree/tree/TreeHandler.java:45-53 | Two lists in scan order with the same elements are equal, so the scan specifications pin down the lists exactly. |
| Voxel.World.HarvestBlock | src/main/java/fr/raksrinana/fallingtree/tree/TreeHandler.java:81 | The harvest routine leaves the cells as they are and logs one harvest call. |
| Voxel.World.DestroyBlock | src/main/java/fr/raksrinana/fallingtree/tree/TreeHandler.java:82 | Destroying a block leaves air there, changes no other cell and logs one non-dropping destroy call. |
| Voxel.World.SpawnDrops | src/main/java/fr/raksrinana/fallingtree/tree/TreeHandler.java:96 | Spawning drops leaves the cells as they are and logs one call. |
| Voxel.World.RemoveBlock | src/main/java/fr/raksrinana/fallingtree/tree/TreeHandler.java:97 | Removing a block leaves air there, changes no other cell and logs one call. |
| Destruction.Tool.DamageItem | src/main/java/fr/raksrinana/fallingtree/tree/TreeHandler.java:78 | The tool's damage grows by the amount when it is damageable and is unchanged otherwise. |
| Destruction.Player.AddItemUsedStat | src/main/java/fr/raksrinana/fallingtree/tree/TreeHandler.java:80 | One "item used" statistic for the block is appended. |
| Destruction.JavaDiv | src/main/java/fr/raksrinana/fallingtree/tree/TreeHandler.java:67 | Java's division, truncating toward zero for every sign of dividend and divisor. The remainder `a - r * b` has the dividend's sign, or is zero, and is smaller than the divisor in size. |
| Destruction.DivideMagnitudes | src/main/java/fr/raksrinana/fallingtree/tree/TreeHandler.java:67 | The product of the quotient and the divisor has the dividend's sign and is the largest multiple of the divisor's size that fits in the dividend's size. |
| Destruction.NoToolLoss | src/main/java/fr/raksrinana/fallingtree/tree/TreeHandler.java:65-78 | The budget's "no tool loss" test agrees with the damage felling charges. When it holds, felling any number of logs charges nothing. Otherwise felling `n` logs charges `n` times the multiplicand. |
| Destruction.UsesLeft | src/main/java/fr/raksrinana/fallingtree/tree/TreeHandler.java:65-71 | A tool that takes no damage has a budget of at least Java's largest int less one. Otherwise, a positive budget plus the preserved use, times the multiplicand, fits in the remaining durability. One more use would not fit. An over-damaged tool has no budget. |
| Destruction.FellingFitsDurability | src/main/java/fr/raksrinana/fallingtree/tree/TreeHandler.java:65-83 | The damage charged while felling min(budget, log count) logs never takes a wearing tool past its maximum. Under `preserve` it also leaves one use. |
| Destruction.FellLogs | src/main/java/fr/raksrinana/fallingtree/tree/TreeHandler.java:75-83 | Exactly the first `count` logs become air, in order, and no other cell changes. Each log's block is read before it is broken. The player's statistics gain those blocks. The tool gains `count` times the multiplicand in damage unless durability loss is ignored or the tool is not damageable. The engine calls are logged as harvest-then-destroy pairs. |
| Destruction.FellEventsPaired | src/main/java/fr/raksrinana/fallingtree/tree/TreeHandler.java:75-82 | Felling makes one call pair per log, in log order. Call `2i` harvests log `i` with the block read. Call `2i+1` destroys log `i` without drops. |
| Destruction.ReadBlocksOfTree | src/main/java/fr/raksrinana/fallingtree/tree/TreeHandler.java:76-80 | For distinct logs of one kind, as discovery returns them, every harvest and statistic is of that kind. |
| Destruction.FelledPrefix | src/main/java/fr/raksrinana/fallingtree/tree/TreeHandler.java:75-82 | After felling a prefix of distinct logs, the prefix is air and every later log stands as before. |
| Destruction.FellOneMore | src/main/java/fr/raksrinana/fallingtree/tree/TreeHandler.java:75-82 | Felling one more log removes just that log and appends its one read and its two calls. |
| Destruction.HigherOf | src/main/java/fr/raksrinana/fallingtree/tree/TreeHandler.java:87 | The comparator fold returns a candidate at least as high as every candidate. It keeps the accumulator unless a strictly higher cell appears. |
| Destruction.HigherOfFirst | src/main/java/fr/raksrinana/fallingtree/tree/TreeHandler.java:87 | When the fold gives up its accumulator, it returns the first candidate of greatest height; every earlier candidate is strictly lower. |
| Destruction.TopLog | src/main/java/fr/raksrinana/fallingtree/tree/TreeHandler.java:87 | Empty exactly for no logs. Otherwise it returns a log of maximal `y`, and no log before it is as high. |
| Destruction.SweepUnvisited | src/main/java/fr/raksrinana/fallingtree/tree/TreeHandler.java:89-94 | The cell the sweep reaches has not been cleared yet, so the block read is the one present when the sweep began. |
| Destruction.SweepSkip | src/main/java/fr/raksrinana/fallingtree/tree/TreeHandler.java:95 | A cube cell without a leaf is left alone. |
| Destruction.SweepClear | src/main/java/fr/raksrinana/fallingtree/tree/TreeHandler.java:95-98 | A cube cell with a leaf joins the cleared list in scan order. It becomes air and logs its spawn-drops then remove calls. |
| Destruction.SweepNextRow | src/main/java/fr/raksrinana/fallingtree/tree/TreeHandler.java:91 | Leaving the innermost loop at `radius` continues the sweep with the next row from `-radius`. |
| Destruction.SweepNextSlice | src/main/java/fr/raksrinana/fallingtree/tree/TreeHandler.java:90 | Leaving the middle loop at `radius` continues the sweep with the next slice from `-radius`. |
| Destruction.SweepEnd | src/main/java/fr/raksrinana/fallingtree/tree/TreeHandler.java:89-101 | When the loops end, the sweep is complete. A cell ends up air exactly when it lies in the half-open cube `[-radius, radius)` and held a leaf. |
| Destruction.ClearLeaves | src/main/java/fr/raksrinana/fallingtree/tree/TreeHandler.java:88-101 | The cleared cells are exactly the cube's leaf cells, in x-then-y-then-z order. Each becomes air after its spawn-drops and remove calls. Cells outside the half-open cube `[-radius, radius)`, including those at `top + radius`, and non-leaf cells keep their block. |
| Destruction.Destroy | src/main/java/fr/raksrinana/fallingtree/tree/TreeHandler.java:63-106 | Succeeds exactly when the budget is at least one; on failure the world, player and tool are unchanged. On success it fells the first min(budget, log count) logs, with the statistics, damage and calls of `FellLogs`. It then clears leaves around the first highest log exactly when the tool takes no damage or the budget covers every log, the radius is positive and the tree has logs. |

## Left out

- Engine calls are foreign code and are recorded only as `Event`s: the harvest routine (drops, tile entity, tool effects), the world's destroy and remove calls (neighbour updates, sounds) and spawning drops. `world.getTileEntity` and the item-used statistic lookup (`asItem`, the statistics registry) are not modelled beyond recording the block.
- Block states are reduced to their block kind. The program reads a full `BlockState` and hands it to the harvest routine and the drop spawner. Only its block takes part in the handler's own decisions.
- Destruction.FellLogs: the contract does not state the order of the four steps within one log: damage, statistic, harvest, destroy. The tool, the player and the world are separate objects, and only the world's engine calls are recorded as a sequence. The body performs them in the program's order.
- Destruction.Tool.DamageItem: models only "damage grows by the amount when damageable". Unbreaking, creative mode, the break callback and the stack shrinking at full damage are engine behaviour and are not part of this model.
- Destruction.UsesLeft: requires a damage multiplicand of at least one. With zero, Java's division throws; a negative multiplicand is outside the configuration's intended range.
- Java's 32-bit `int` arithmetic is modelled without wrap-around. This covers coordinates, `maxDamage - damage`, the per-log damage and the sweep counters. Only `Integer.MAX_VALUE` appears, as the literal `0x7FFF_FFFF`.
- Discovery.GetTree: requires that, when the struck cell is air, air is not a tree block. This excludes exactly the divergent run of the Java loop. There, the flood would spread over the unbounded air of the world and never end. In every other run the logs are non-air cells, and there are finitely many of them, which gives the loop a finite measure.
- Discovery.NeighborLogs: appends the visited positions in an arbitrary order, because a `HashSet` has no defined iteration order. `GetTree` removes them again straight away, so the order never matters.
- The `Tree` class is not part of this model beyond its world, its ordered list of logs, `addLog` as an append and `getLogCount` as the list's length. For the duplicate-free lists that discovery builds, this is also the number of distinct logs. So a set-backed count would agree.
- `isTreeBlock` and `isLeafBlock` come from configuration-driven code that is not part of this model. They are uninterpreted functions on block kinds.
- `Config.COMMON` is a global singleton in the program; here it is a read-only `Config` value passed to `Destroy`.
- Mutable `BlockPos.Mutable` cursors are modelled as immutable positions. The program copies a cursor (`toImmutable`) before storing it, so no aliasing is observable.
- Threading and event wiring are not modelled. The game serialises these calls.
