// Allocation and reclaiming of blocks (ssd_bm.cpp), for the translation layers
// that do not clean blocks page by page. Blocks are named by their number,
// physical address / BLOCK_SIZE.
module BlockManagement {
  import opened Flash
  import opened Drive

  datatype BlockType = LOG | DATA

  // insert_events does nothing while fewer than nine tenths of the blocks are
  // used, and goes on when more are. At exactly nine tenths the quotient is a
  // rounded one, so either may happen.
  predicate WantsCleaning(total: nat, invalid: nat, logActive: int, dataActive: int, free: nat) {
    10 * (invalid + logActive + dataActive - free) > 9 * total
  }

  predicate AtThreshold(total: nat, invalid: nat, logActive: int, dataActive: int, free: nat) {
    10 * (invalid + logActive + dataActive - free) == 9 * total
  }

  // A drive that is not past the threshold has three blocks to spare, whatever
  // is in use, exactly when it has more than twenty blocks.
  lemma QuietLeavesThreeFree(total: nat)
    requires total > 0
    ensures (forall used: nat :: used <= total && !WantsCleaning(total, 0, 0, used, 0) ==> total - used >= 3) <==>
        total > 20
  {
    if total <= 20 {
      assert !WantsCleaning(total, 0, 0, if total >= 2 then total - 2 else 0, 0);
    }
  }

  class BlockManager {
    const ssd: Ssd
    const maxBlocks: nat

    // Blocks below this number have been handed out at least once.
    var simpleCurrentFree: nat
    var freeList: seq<nat>
    var invalidList: seq<nat>
    var dataActive: int
    var logActive: int
    var currentWritingBlock: int
    var outOfBlocks: bool

    constructor (ssd: Ssd, maxBlocks: nat)
      ensures this.ssd == ssd && this.maxBlocks == maxBlocks
      ensures simpleCurrentFree == 0 && freeList == [] && invalidList == []
      ensures dataActive == 0 && logActive == 0 && currentWritingBlock == -2 && !outOfBlocks
    {
      this.ssd := ssd;
      this.maxBlocks := maxBlocks;
      simpleCurrentFree, freeList, invalidList := 0, [], [];
      dataActive, logActive, currentWritingBlock, outOfBlocks := 0, 0, -2, false;
    }

    // insert_events goes on past its threshold test.
    ghost predicate Wanted()
      reads this
    {
      WantsCleaning(maxBlocks, |invalidList|, logActive, dataActive, |freeList|)
    }

    ghost predicate MayClean()
      reads this
    {
      Wanted() || AtThreshold(maxBlocks, |invalidList|, logActive, dataActive, |freeList|)
    }

    // One pass when no layer cleans blocks: up to five members of invalid_list,
    // taken from its end, are erased and freed.
    method InsertEvents() returns (ghost k: nat)
      requires ssd.Valid() && this !in ssd.Repr && forall i :: 0 <= i < |invalidList| ==> invalidList[i] < |ssd.view|
      modifies `invalidList, `freeList, ssd, ssd.Repr
      ensures ssd.Valid() && k <= old(|invalidList|) && (k > 0 ==> old(MayClean()))
      ensures k == 0 || k == (if old(|invalidList|) < 5 then old(|invalidList|) else 5)
      ensures old(Wanted()) && old(invalidList) != [] ==> k > 0
      ensures invalidList == old(invalidList)[..|old(invalidList)| - k]
      ensures freeList == old(freeList) + FromEnd(old(invalidList), k)
      ensures ErasedAll(old(ssd.view), FromEnd(old(invalidList), k), ssd.view)
    {
      k := 0;
      NothingTaken(invalidList, freeList, ssd.view);
      hide Ssd.Valid, ErasedAll;
      var roundedUp: bool := *;
      if !WantsCleaning(maxBlocks, |invalidList|, logActive, dataActive, |freeList|)
         && !(roundedUp && AtThreshold(maxBlocks, |invalidList|, logActive, dataActive, |freeList|)) {
        return;
      }
      k := EraseUpToFive();
    }

    // The loop of the pass.
    method EraseUpToFive() returns (ghost k: nat)
      requires ssd.Valid() && this !in ssd.Repr && forall i :: 0 <= i < |invalidList| ==> invalidList[i] < |ssd.view|
      modifies `invalidList, `freeList, ssd, ssd.Repr
      ensures ssd.Valid() && k == (if old(|invalidList|) < 5 then old(|invalidList|) else 5)
      ensures Taken(old(invalidList), old(freeList), old(ssd.view), k, invalidList, freeList, ssd.view)
    {
      NothingTaken(invalidList, freeList, ssd.view);
      hide Ssd.Valid, Taken;
      k := 0;
      var numToErase := 5;
      while numToErase != 0 && |invalidList| != 0
        invariant 0 <= numToErase == 5 - k && ssd.Valid()
        invariant Taken(old(invalidList), old(freeList), old(ssd.view), k, invalidList, freeList, ssd.view)
        decreases numToErase
      {
        OneMoreTaken(old(invalidList), old(freeList), old(ssd.view), k, invalidList, freeList, ssd.view);
        EraseLast();
        numToErase := numToErase - 1;
        k := k + 1;
      }
      TakenUp(old(invalidList), old(freeList), old(ssd.view), k, invalidList, freeList, ssd.view);
    }

    method EraseLast()
      requires ssd.Valid() && this !in ssd.Repr && invalidList != [] && invalidList[|invalidList| - 1] < |ssd.view|
      modifies `invalidList, `freeList, ssd, ssd.Repr
      ensures ssd.Valid() && invalidList == old(invalidList)[..|old(invalidList)| - 1]
      ensures var last := old(invalidList)[|old(invalidList)| - 1];
              && freeList == old(freeList) + [last]
              && ssd.view == old(ssd.view)[last := old(ssd.view)[last].Erase()]
    {
      hide Ssd.Valid;
      var last := invalidList[|invalidList| - 1];
      ssd.Erase(last);
      freeList := freeList + [last];
      invalidList := invalidList[..|invalidList| - 1];
    }

    // Blocks are handed out in address order until all have been, and then from
    // the front of the free list. With at most one block there, a pass comes
    // first, unless one is under way. The source asserts that the list is not
    // empty then.
    method GetPageBlock() returns (block: nat, ghost k: nat)
      requires ssd.Valid() && this !in ssd.Repr && forall i :: 0 <= i < |invalidList| ==> invalidList[i] < |ssd.view|
      requires simpleCurrentFree < maxBlocks || freeList != [] || (!outOfBlocks && invalidList != [] && Wanted())
      modifies this, ssd, ssd.Repr
      ensures ssd.Valid() && Collected(old(invalidList), old(ssd.view), k, invalidList, ssd.view)
      ensures k > 0 ==>
          old(simpleCurrentFree) >= maxBlocks && old(|freeList|) <= 1 && !old(outOfBlocks) && old(MayClean())
      ensures Took(old(simpleCurrentFree), old(freeList) + FromEnd(old(invalidList), k), block, simpleCurrentFree,
          freeList, maxBlocks)
      ensures currentWritingBlock == block
      ensures outOfBlocks == (old(outOfBlocks) && old(simpleCurrentFree) < maxBlocks)
      ensures dataActive == old(dataActive) && logActive == old(logActive)
    {
      k := 0;
      NoneErased(ssd.view);
      assert old(freeList) + FromEnd(invalidList, 0) == freeList;
      if simpleCurrentFree < maxBlocks {
        block := simpleCurrentFree;
        currentWritingBlock := block;
        simpleCurrentFree := simpleCurrentFree + 1;
      } else {
        if |freeList| <= 1 && !outOfBlocks {
          outOfBlocks := true;
          k := InsertEvents();
        }
        block := freeList[0];
        currentWritingBlock := block;
        freeList := freeList[1..];
        outOfBlocks := false;
      }
    }

    // The source throws bad_alloc when a log block is asked for with log_active
    // above the number of blocks.
    method GetFreeBlock(kind: BlockType) returns (block: nat, ghost k: nat)
      requires ssd.Valid() && this !in ssd.Repr && forall i :: 0 <= i < |invalidList| ==> invalidList[i] < |ssd.view|
      requires simpleCurrentFree < maxBlocks || freeList != [] || (!outOfBlocks && invalidList != [] && Wanted())
      requires kind == LOG ==> logActive <= maxBlocks
      modifies this, ssd, ssd.Repr
      ensures ssd.Valid() && Collected(old(invalidList), old(ssd.view), k, invalidList, ssd.view)
      ensures k > 0 ==>
          old(simpleCurrentFree) >= maxBlocks && old(|freeList|) <= 1 && !old(outOfBlocks) && old(MayClean())
      ensures Took(old(simpleCurrentFree), old(freeList) + FromEnd(old(invalidList), k), block, simpleCurrentFree,
          freeList, maxBlocks)
      ensures dataActive == old(dataActive) + (if kind == DATA then 1 else 0)
      ensures logActive == old(logActive) + (if kind == LOG then 1 else 0)
      ensures currentWritingBlock == block
    {
      hide Took, Collected, Ssd.Valid;
      block, k := GetPageBlock();
      match kind {
        case DATA => dataActive := dataActive + 1;
        case LOG => logActive := logActive + 1;
      }
    }

    // For the layers that never fill invalid_list.
    method GetBlock(kind: BlockType) returns (block: nat)
      requires ssd.Valid() && this !in ssd.Repr && invalidList == []
      requires simpleCurrentFree < maxBlocks || freeList != []
      requires kind == LOG ==> logActive <= maxBlocks
      modifies this, ssd, ssd.Repr
      ensures ssd.Valid() && ssd.view == old(ssd.view) && invalidList == []
      ensures Took(old(simpleCurrentFree), old(freeList), block, simpleCurrentFree, freeList, maxBlocks)
      ensures dataActive == old(dataActive) + (if kind == DATA then 1 else 0)
      ensures logActive == old(logActive) + (if kind == LOG then 1 else 0)
      ensures currentWritingBlock == block
    {
      hide Took, Ssd.Valid;
      ghost var k;
      assert freeList + FromEnd(invalidList, 0) == freeList;
      block, k := GetFreeBlock(kind);
    }

    // A log block becomes the data block it is switched in for, or the reverse.
    method PromoteBlock(to: BlockType)
      modifies `dataActive, `logActive
      ensures dataActive == old(dataActive) + (if to == DATA then 1 else -1)
      ensures logActive == old(logActive) + (if to == DATA then -1 else 1)
    {
      match to {
        case DATA => dataActive, logActive := dataActive + 1, logActive - 1;
        case LOG => logActive, dataActive := logActive + 1, dataActive - 1;
      }
    }

    method EraseAndInvalidate(block: nat, kind: BlockType)
      requires ssd.Valid() && this !in ssd.Repr && block < |ssd.view|
      modifies `freeList, `dataActive, `logActive, ssd, ssd.Repr
      ensures ssd.Valid() && ssd.view == old(ssd.view)[block := old(ssd.view)[block].Erase()]
      ensures freeList == old(freeList) + [block]
      ensures dataActive == old(dataActive) - (if kind == DATA then 1 else 0)
      ensures logActive == old(logActive) - (if kind == LOG then 1 else 0)
    {
      ssd.Erase(block);
      freeList := freeList + [block];
      match kind {
        case DATA => dataActive := dataActive - 1;
        case LOG => logActive := logActive - 1;
      }
    }
  }

  // The last k members, the last one first.
  ghost function FromEnd(list: seq<nat>, k: nat): (taken: seq<nat>)
    requires k <= |list|
    ensures |taken| == k
  {
    if k == 0 then [] else FromEnd(list, k - 1) + [list[|list| - k]]
  }

  // Exactly the named blocks have been erased.
  ghost predicate ErasedAll(before: seq<BlockValue>, blocks: seq<nat>, after: seq<BlockValue>) {
    && |after| == |before|
    && forall b :: 0 <= b < |before| ==> after[b] == if b in blocks then before[b].Erase() else before[b]
  }

  lemma NoneErased(view: seq<BlockValue>)
    ensures ErasedAll(view, [], view)
  {}

  lemma OneMoreErased(before: seq<BlockValue>, blocks: seq<nat>, view: seq<BlockValue>, b: nat)
    requires ErasedAll(before, blocks, view) && b < |view|
    ensures ErasedAll(before, blocks + [b], view[b := view[b].Erase()])
  {
    assert before[b].Erase().Erase() == before[b].Erase();
  }

  // The lists and the blocks once k members have been taken.
  ghost predicate Taken(invalid: seq<nat>, free: seq<nat>, view: seq<BlockValue>, k: nat,
                        invalid': seq<nat>, free': seq<nat>, view': seq<BlockValue>) {
    && k <= |invalid| && (forall i :: 0 <= i < |invalid| ==> invalid[i] < |view|)
    && invalid' == invalid[..|invalid| - k] && free' == free + FromEnd(invalid, k)
    && ErasedAll(view, FromEnd(invalid, k), view')
  }

  lemma NothingTaken(invalid: seq<nat>, free: seq<nat>, view: seq<BlockValue>)
    requires forall i :: 0 <= i < |invalid| ==> invalid[i] < |view|
    ensures Taken(invalid, free, view, 0, invalid, free, view)
  {}

  lemma OneMoreTaken(invalid: seq<nat>, free: seq<nat>, view: seq<BlockValue>, k: nat,
                     invalid': seq<nat>, free': seq<nat>, view': seq<BlockValue>)
    requires Taken(invalid, free, view, k, invalid', free', view') && invalid' != []
    ensures var n := |invalid'| - 1; var last := invalid'[n];
            && last < |view'|
            && Taken(invalid, free, view, k + 1, invalid'[..n], free' + [last], view'[last := view'[last].Erase()])
  {
    assert invalid'[|invalid'| - 1] == invalid[|invalid| - (k + 1)];
    OneMoreErased(view, FromEnd(invalid, k), view', invalid'[|invalid'| - 1]);
    hide ErasedAll;
  }

  lemma TakenUp(invalid: seq<nat>, free: seq<nat>, view: seq<BlockValue>, k: nat,
                invalid': seq<nat>, free': seq<nat>, view': seq<BlockValue>)
    requires Taken(invalid, free, view, k, invalid', free', view') && (k == 5 || (k <= 5 && invalid' == []))
    ensures k == if |invalid| < 5 then |invalid| else 5
  {}

  ghost predicate Collected(invalid: seq<nat>, view: seq<BlockValue>, k: nat, invalid': seq<nat>,
                            view': seq<BlockValue>) {
    && k <= |invalid| && (k == 0 || k == if |invalid| < 5 then |invalid| else 5)
    && invalid' == invalid[..|invalid| - k] && ErasedAll(view, FromEnd(invalid, k), view')
  }

  // How handing out `block` changes the two sources of blocks: untouched blocks
  // first, in address order, then the oldest freed block.
  ghost predicate Took(next: nat, free: seq<nat>, block: nat, next': nat, free': seq<nat>, max: nat) {
    if next < max then block == next && next' == next + 1 && free' == free
    else free != [] && block == free[0] && next' == next && free' == free[1..]
  }
}
