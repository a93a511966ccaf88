/**
 * `isBlockInViewport` of the editor script: every block is taken to be 100
 * pixels high and to sit at `blockIndex * 100`. The window's `scrollY` and
 * `innerHeight` are passed in as integers.
 */
module Viewport {

  const BlockHeight: int := 100

  /**
   * Visible when the block's top edge or its bottom edge lies in the closed
   * interval [scrollTop, scrollTop + viewportHeight]. For a viewport of
   * non-negative height this is: the block and the viewport meet, and the
   * block does not stick out of the viewport at both ends.
   */
  function IsBlockInViewport(blockIndex: int, totalBlocks: int, scrollTop: int, viewportHeight: int): (r: bool)
    ensures viewportHeight >= 0 ==>
      (r <==> OverlapsViewport(blockIndex, scrollTop, viewportHeight)
              && !(blockIndex * BlockHeight < scrollTop && scrollTop + viewportHeight < blockIndex * BlockHeight + BlockHeight))
    ensures viewportHeight < 0 ==> !r
  {
    var blockTop := blockIndex * BlockHeight;
    var blockBottom := blockTop + BlockHeight;
    (blockTop >= scrollTop && blockTop <= scrollTop + viewportHeight) ||
    (blockBottom >= scrollTop && blockBottom <= scrollTop + viewportHeight)
  }

  /** The answer does not depend on the number of blocks. */
  lemma VisibilityIgnoresBlockCount(blockIndex: int, total1: int, total2: int, scrollTop: int, viewportHeight: int)
    ensures IsBlockInViewport(blockIndex, total1, scrollTop, viewportHeight)
        == IsBlockInViewport(blockIndex, total2, scrollTop, viewportHeight)
  {
  }

  /** Row `y` of the page lies on the block at `blockIndex`, edges included. */
  predicate OnBlock(y: int, blockIndex: int) {
    blockIndex * BlockHeight <= y <= blockIndex * BlockHeight + BlockHeight
  }

  /** Row `y` of the page lies in the viewport, edges included. */
  predicate OnScreen(y: int, scrollTop: int, viewportHeight: int) {
    scrollTop <= y <= scrollTop + viewportHeight
  }

  /** The visibility test the helper is meant to make: some row of the block is on screen. */
  function OverlapsViewport(blockIndex: int, scrollTop: int, viewportHeight: int): (r: bool)
    ensures r <==> exists y :: OnBlock(y, blockIndex) && OnScreen(y, scrollTop, viewportHeight)
  {
    var blockTop := blockIndex * BlockHeight;
    var overlaps := 0 <= viewportHeight && blockTop <= scrollTop + viewportHeight && scrollTop <= blockTop + BlockHeight;
    if overlaps then
      var y := if blockTop < scrollTop then scrollTop else blockTop;
      assert OnBlock(y, blockIndex) && OnScreen(y, scrollTop, viewportHeight);
      true
    else
      false
  }

  /** A block that covers the whole of a viewport lower than a block is reported as not visible. */
  lemma CoveringBlockHidden()
    ensures OverlapsViewport(0, 10, 50) && !IsBlockInViewport(0, 1, 10, 50)
  {
  }

  /** Every block reported visible does meet the viewport. */
  lemma VisibleBlocksOverlap(blockIndex: int, totalBlocks: int, scrollTop: int, viewportHeight: int)
    ensures IsBlockInViewport(blockIndex, totalBlocks, scrollTop, viewportHeight) ==> OverlapsViewport(blockIndex, scrollTop, viewportHeight)
  {
  }

  /** From a viewport one block high upwards, the check and the overlap test agree. */
  lemma TallViewportAgrees(blockIndex: int, totalBlocks: int, scrollTop: int, viewportHeight: int)
    requires viewportHeight >= BlockHeight
    ensures IsBlockInViewport(blockIndex, totalBlocks, scrollTop, viewportHeight) == OverlapsViewport(blockIndex, scrollTop, viewportHeight)
  {
  }
}
