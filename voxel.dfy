/**
 * The voxel world the tree handler works on: integer block positions, opaque
 * block kinds, and a mutable world whose engine calls (harvesting, breaking,
 * spawning drops, removing) are recorded as an ordered list of events.
 */
module Voxel {

  /** A block position `(x, y, z)`; `y` is the vertical axis. Compared by value. */
  datatype Pos = Pos(x: int, y: int, z: int)

  /** What occupies a cell. Only equality of kinds is observed; `Air` is the empty cell. */
  datatype Block = Air | Kind(name: string)

  /**
   * The configuration-driven classification of block kinds. Both predicates
   * are left uninterpreted.
   */
  datatype Classifier = Classifier(isTreeBlock: Block -> bool, isLeafBlock: Block -> bool)

  /** The block at `p` in a world whose non-air cells are `cells`. */
  function BlockIn(cells: map<Pos, Block>, p: Pos): Block
  {
    if p in cells then cells[p] else Air
  }

  /** `q` lies in the 3x3x3 cube centred on `p` (`p` itself included). */
  predicate Near(p: Pos, q: Pos)
  {
    -1 <= q.x - p.x <= 1 && -1 <= q.y - p.y <= 1 && -1 <= q.z - p.z <= 1
  }

  /** `q` is one of the 26 neighbours of `p`: in its 3x3x3 cube and not `p` itself. */
  predicate Adjacent(p: Pos, q: Pos)
  {
    p != q && Near(p, q)
  }

  /** An engine call that the tree handler makes, in the order it makes them. */
  datatype Event =
    | Harvested(pos: Pos, block: Block)      // the block's harvest routine: its drops and tool effects
    | Destroyed(pos: Pos, dropBlock: bool)   // the world's destroy-block call
    | DropsSpawned(pos: Pos, block: Block)   // the block's natural drops spawned at a position
    | Removed(pos: Pos)                      // the world's plain remove-block call

  /** The world: the cells holding something other than air, and the engine calls made so far. */
  class World {
    var cells: map<Pos, Block>
    var events: seq<Event>

    /** The block currently at `p`. */
    function BlockAt(p: Pos): Block
      reads this
    {
      BlockIn(cells, p)
    }

    /** The block's harvest routine: produces the block's normal drops; the world's cells are untouched. */
    method HarvestBlock(p: Pos, b: Block)
      modifies this
      ensures cells == old(cells)
      ensures events == old(events) + [Harvested(p, b)]
    {
      events := events + [Harvested(p, b)];
    }

    /** Breaks the block at `p`, leaving air; `dropBlock` says whether the block drops itself. */
    method DestroyBlock(p: Pos, dropBlock: bool)
      modifies this
      ensures cells == old(cells) - {p}
      ensures BlockAt(p) == Air
      ensures events == old(events) + [Destroyed(p, dropBlock)]
    {
      cells := cells - {p};
      events := events + [Destroyed(p, dropBlock)];
    }

    /** Spawns the natural drops of block `b` at `p`; the world's cells are untouched. */
    method SpawnDrops(p: Pos, b: Block)
      modifies this
      ensures cells == old(cells)
      ensures events == old(events) + [DropsSpawned(p, b)]
    {
      events := events + [DropsSpawned(p, b)];
    }

    /** Replaces the block at `p` with air, with no drops. */
    method RemoveBlock(p: Pos)
      modifies this
      ensures cells == old(cells) - {p}
      ensures BlockAt(p) == Air
      ensures events == old(events) + [Removed(p)]
    {
      cells := cells - {p};
      events := events + [Removed(p)];
    }
  }
}
