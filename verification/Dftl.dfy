// The DFTL translation layer (FTLs/dftl_ftl.cpp) with the garbage collection
// pass that the block manager runs for it (ssd_bm.cpp).
module Dftl {
  import opened Geometry
  import opened Flash
  import opened Drive
  import opened BlockManagement
  import opened DftlModel
  import opened DftlCache
  import opened FiniteSets
  import opened Host

  // (free blocks, room in the current block) in lexicographic order.
  predicate Gained(free: int, room: int, free': int, room': int) {
    free' > free || (free' == free && room' > room)
  }

  // The requests that look their page up in the cache, each once.
  function Lookups(requests: seq<Request>): seq<Touch> {
    if |requests| == 0 then []
    else
      var last := requests[|requests| - 1];
      Lookups(requests[..|requests| - 1]) +
      (if last.Trim? then [] else [Asked(last.page, last.Write?, last.moment.startTime)])
  }

  lemma LookupsOne(request: Request)
    ensures Lookups([request]) ==
        if request.Trim? then [] else [Asked(request.page, request.Write?, request.moment.startTime)]
  {
    assert [request][..0] == [];
  }

  lemma LookupsMore(requests: seq<Request>, last: Request)
    ensures Lookups(requests + [last]) == Lookups(requests) + Lookups([last])
  {
    assert (requests + [last])[..|requests|] == requests;
    assert [last][..0] == [];
  }

  // The blocks never handed out, in order.
  ghost function Untaken(next: nat, total: nat): seq<nat>
    decreases total - next
  {
    if next < total then [next] + Untaken(next + 1, total) else []
  }

  lemma TookFront(next: nat, free: seq<nat>, block: nat, next': nat, free': seq<nat>, max: nat)
    requires Took(next, free, block, next', free', max)
    ensures var before := Untaken(next, max) + free;
            before != [] && block == before[0] && Untaken(next', max) + free' == before[1..]
  {}

  // The blocks that can be handed out, next one first, after some have been
  // taken from the front and `reclaimed` has joined at the back.
  ghost predicate Cycled(before: seq<nat>, reclaimed: seq<nat>, after: seq<nat>) {
    var taken := |before| + |reclaimed| - |after|;
    taken >= 0 && after == (before + reclaimed)[taken..]
  }

  lemma CycledNone(list: seq<nat>)
    ensures Cycled(list, [], list)
  {}

  lemma CycledMore(before: seq<nat>, reclaimed: seq<nat>, list: seq<nat>, victim: nat, after: seq<nat>)
    requires Cycled(before, reclaimed, list) && list != []
    requires after == list + [victim] || after == list[1..] + [victim]
    ensures Cycled(before, reclaimed + [victim], after)
  {
    assert before + (reclaimed + [victim]) == (before + reclaimed) + [victim];
  }

  lemma CycledTake(before: seq<nat>, reclaimed: seq<nat>, list: seq<nat>)
    requires Cycled(before, reclaimed, list) && list != []
    ensures Cycled(before, reclaimed, list[1..])
  {}

  class FtlImpl_Dftl {
    const c: Config
    const ssd: Ssd
    const bm: BlockManager
    const parent: FtlImpl_DftlParent
    var currentDataPage: Option<PageAddr>
    // What the host last wrote and has not trimmed.
    ghost var contents: map<nat, Bytes>

    // The flash and the allocator, under given forward and reverse maps. While
    // a block is being cleaned these run ahead of the stored maps.
    ghost function E(ppn: seq<Option<PageAddr>>, owner: map<PageAddr, nat>): State
      reads this, bm, ssd
    {
      State(ssd.view, ppn, owner, currentDataPage, bm.freeList, bm.simpleCurrentFree)
    }

    ghost function S(): State
      reads this, bm, ssd, parent
    {
      E(Ppns(parent.transMap), parent.reverseTransMap)
    }

    // How the objects are connected; none of this changes after construction.
    ghost predicate Fixed() {
      && c.size > 0 && c.size == ssd.g.blockSize && c.blocks == ssd.g.Blocks() && c.blocks > 20
      && bm.ssd == ssd && bm.maxBlocks == c.blocks
      && this !in ssd.Repr && bm !in ssd.Repr && parent !in ssd.Repr
    }

    // The block manager's own counters. data_active only ever grows.
    ghost predicate Managed()
      reads this, bm
    {
      && bm.invalidList == [] && bm.logActive == 0 && bm.dataActive >= bm.simpleCurrentFree
      && (currentDataPage.Some? ==> bm.currentWritingBlock == currentDataPage.value.block)
      && (currentDataPage.None? ==> bm.dataActive == 0 && bm.freeList == [])
    }

    ghost predicate Core(ppn: seq<Option<PageAddr>>, owner: map<PageAddr, nat>, pending: bool)
      reads this, bm, ssd, ssd.Repr
    {
      ssd.Valid() && Managed() && Inv(c, E(ppn, owner), pending) && Represents(c, E(ppn, owner), contents)
    }

    ghost function Free(): int
      reads bm
    {
      c.blocks - bm.simpleCurrentFree + |bm.freeList|
    }

    // The blocks that can be handed out, in the order they will be.
    ghost function Available(): seq<nat>
      reads bm
    {
      Untaken(bm.simpleCurrentFree, c.blocks) + bm.freeList
    }

    lemma SomeAvailable()
      requires Valid()
      ensures Available() != []
    {
      ShapeOf(c, S(), false);
    }

    ghost function Left(): int
      reads this
    {
      if currentDataPage.None? then 0 else c.size - 1 - currentDataPage.value.page
    }

    // Two blocks can always be handed out.
    ghost predicate Valid()
      reads this, bm, ssd, ssd.Repr, parent
    {
      Fixed() && Core(Ppns(parent.transMap), parent.reverseTransMap, false) && parent.Valid() && Free() >= 2
    }

    // The page's mapping lies on a translation page that the map fills.
    ghost predicate OnFilledPage(dlpn: nat) {
      parent.addressPerPage > 0 && Whole(dlpn, parent.addressPerPage, c.logical)
    }

    constructor (ssd: Ssd, addressPerPage: nat, totalCMTentries: nat)
      requires ssd.Valid() && ssd.g.Blocks() > 20 && addressPerPage > 0 && totalCMTentries > 0
      requires forall k :: 0 <= k < |ssd.view| ==> ssd.view[k] == FreshBlock(ssd.g.blockSize)
      ensures Valid() && this.ssd == ssd && c == Config(ssd.g.blockSize, ssd.g.Blocks(), ssd.g.Capacity())
      ensures contents == map[] && parent.drift == 0 && fresh(bm) && fresh(parent)
      ensures parent.Tame() && !parent.overrun && parent.addressPerPage == addressPerPage && parent.history == []
    {
      this.ssd := ssd;
      c := Config(ssd.g.blockSize, ssd.g.Blocks(), ssd.g.Capacity());
      bm := new BlockManager(ssd, ssd.g.Blocks());
      parent := new FtlImpl_DftlParent(ssd.g.Capacity(), addressPerPage, totalCMTentries);
      currentDataPage := None;
      contents := map[];
    }

    // The current page moves on within its block.
    method NextPage(ghost ppn: seq<Option<PageAddr>>, ghost owner: map<PageAddr, nat>)
      requires Fixed() && Core(ppn, owner, false) && currentDataPage.Some? && Left() > 0
      modifies `currentDataPage
      ensures Core(ppn, owner, true) && currentDataPage.Some? && Left() == old(Left()) - 1
      ensures currentDataPage.value ==
          PageAddr(old(currentDataPage).value.block, old(currentDataPage).value.page + 1)
    {
      hide Inv, Ssd.Valid, BytesAt, Represents;
      ghost var s := E(ppn, owner);
      TakeNextPage(c, s);
      ShapeOf(c, s, false);
      currentDataPage := Some(PageAddr(currentDataPage.value.block, currentDataPage.value.page + 1));
      ShapeOf(c, E(ppn, owner), true);
      RepresentsFrame(c, s, E(ppn, owner), contents);
    }

    // The current page moves to a new block. With two blocks to hand out,
    // get_page_block never starts another collection pass.
    method NextBlock(ghost ppn: seq<Option<PageAddr>>, ghost owner: map<PageAddr, nat>)
      requires Fixed() && Core(ppn, owner, false) && Left() == 0 && Free() >= 2
      modifies `currentDataPage, bm, ssd, ssd.Repr
      ensures Core(ppn, owner, true) && currentDataPage.Some? && currentDataPage.value.page == 0
      ensures Free() == old(Free()) - 1 && Left() == c.size - 1
      ensures old(Available()) != [] && Available() == old(Available())[1..] &&
          currentDataPage.value.block == old(Available())[0]
      ensures !InUse(old(E(ppn, owner)), currentDataPage.value.block) && ssd.view == old(ssd.view)
      ensures forall x :: x != currentDataPage.value.block ==>
          (InUse(E(ppn, owner), x) <==> InUse(old(E(ppn, owner)), x))
    {
      hide Inv, Ssd.Valid, BytesAt, Represents;
      ghost var s := E(ppn, owner);
      assert bm.simpleCurrentFree < bm.maxBlocks || |bm.freeList| > 1;
      ShapeOf(c, s, false);
      ghost var next, free := bm.simpleCurrentFree, bm.freeList;
      var block := bm.GetBlock(DATA);
      TookFront(next, free, block, bm.simpleCurrentFree, bm.freeList, c.blocks);
      currentDataPage := Some(PageAddr(block, 0));
      TakeBlock(c, s, block, E(ppn, owner));
      ShapeOf(c, E(ppn, owner), true);
      RepresentsFrame(c, s, E(ppn, owner), contents);
    }

    // Programs the current page for logical page v and invalidates the page
    // that held it.
    method Program(ghost v: nat, bytes: Bytes, replaced: Option<PageAddr>, ghost ppn: seq<Option<PageAddr>>,
                   ghost owner: map<PageAddr, nat>)
      requires Fixed() && Core(ppn, owner, true) && currentDataPage.Some? && v < |ppn| == c.logical &&
          replaced == ppn[v]
      requires replaced.Some? ==> IsPage(c, replaced.value)
      modifies `contents, ssd, ssd.Repr
      ensures contents == old(contents)[v := bytes]
      ensures Core(ppn[v := currentDataPage], owner[currentDataPage.value := v], false)
      ensures ssd.view == AfterWrite(old(ssd.view), currentDataPage.value, bytes, replaced)
    {
      hide Inv, Ssd.Valid, BytesAt, Represents, AfterWrite;
      ghost var s := E(ppn, owner);
      WriteReady(c, s);
      WriteStep(c, s, v, bytes, contents);
      ssd.IssueWrite(currentDataPage.value, bytes, replaced);
      contents := contents[v := bytes];
    }

    // Next page for data, without a collection pass first.
    method GetCleaningPage(ghost ppn: seq<Option<PageAddr>>, ghost owner: map<PageAddr, nat>)
      requires Fixed() && Core(ppn, owner, false) && currentDataPage.Some? && Free() >= (if Left() > 0 then 0 else 2)
      modifies `currentDataPage, bm, ssd, ssd.Repr
      ensures Core(ppn, owner, true) && currentDataPage.Some? && ssd.view == old(ssd.view)
      ensures old(Left()) > 0 ==>
          && Free() == old(Free()) && Available() == old(Available())
          && Left() == old(Left()) - 1
          && currentDataPage.value.block == old(currentDataPage).value.block
      ensures old(Left()) == 0 ==> old(Available()) != [] && Available() == old(Available())[1..]
      ensures old(Left()) == 0 ==>
          Free() == old(Free()) - 1 && Left() == c.size - 1 && !InUse(old(E(ppn, owner)), currentDataPage.value.block)
      ensures forall x :: x != currentDataPage.value.block ==>
          (InUse(E(ppn, owner), x) <==> InUse(old(E(ppn, owner)), x))
    {
      hide Core;
      PageInBlock(ppn, owner);
      if currentDataPage.value.page % c.size == c.size - 1 {
        NextBlock(ppn, owner);
      } else {
        NextPage(ppn, owner);
      }
    }

    lemma PageInBlock(ppn: seq<Option<PageAddr>>, owner: map<PageAddr, nat>)
      requires Core(ppn, owner, false) && currentDataPage.Some?
      ensures currentDataPage.value.page < c.size && Left() >= 0
      ensures currentDataPage.value.page % c.size == currentDataPage.value.page
    {
      hide Inv, Ssd.Valid, Represents;
      ShapeOf(c, E(ppn, owner), false);
      ModSmall(currentDataPage.value.page, c.size);
    }

    // ---------- cleaning a block ----------

    // Moves the live page `i` of the victim to the current page. Its new place
    // is remembered for the batch update of the maps.
    method MovePage(victim: nat, i: nat, ghost ppn: seq<Option<PageAddr>>, ghost owner: map<PageAddr, nat>)
      requires Fixed() && Core(ppn, owner, false) && Cleanable(c, E(ppn, owner), victim) && i < c.size
      requires StateOf(c, E(ppn, owner), PageAddr(victim, i)) == VALID && Free() >= (if Left() > 0 then 0 else 2)
      requires PageAddr(victim, i) in owner && owner[PageAddr(victim, i)] < |ppn| == c.logical
      requires ppn[owner[PageAddr(victim, i)]] == Some(PageAddr(victim, i))
      modifies `currentDataPage, `contents, bm, ssd, ssd.Repr
      ensures currentDataPage.Some? && contents == old(contents)
      ensures var v := owner[PageAddr(victim, i)];
              var ppn', owner' := ppn[v := currentDataPage], owner[currentDataPage.value := v];
              Core(ppn', owner', false) && Cleanable(c, E(ppn', owner'), victim)
      ensures ssd.view[victim] == old(ssd.view)[victim].Invalidate(i) && currentDataPage.value.block != victim
      ensures old(Left()) > 0 ==> Available() == old(Available())
      ensures old(Left()) == 0 ==> old(Available()) != [] && Available() == old(Available())[1..]
      ensures old(Left()) > 0 ==> Free() == old(Free()) && Left() == old(Left()) - 1
      ensures old(Left()) == 0 ==> Free() == old(Free()) - 1 && Left() == c.size - 1
    {
      hide Inv, Ssd.Valid, Represents, AfterWrite;
      ghost var s := E(ppn, owner);
      ghost var v := owner[PageAddr(victim, i)];
      MoveKeepsContents(c, s, PageAddr(victim, i), contents);
      var bytes := ssd.Read(PageAddr(victim, i));
      GetCleaningPage(ppn, owner);
      ghost var view := ssd.view;
      ShapeOf(c, E(ppn, owner), true);
      Program(v, bytes, Some(PageAddr(victim, i)), ppn, owner);
      ShapeOf(c, E(ppn[v := currentDataPage], owner[currentDataPage.value := v]), false);
      ReplacedElsewhere(view, currentDataPage.value, bytes, PageAddr(victim, i));
    }

    // Pages of the victim below `i` are INVALID, the others as they were.
    ghost predicate Visited(victim: nat, i: nat, before: BlockValue)
      reads ssd
    {
      && victim < |ssd.view| && |ssd.view[victim].pages| == |before.pages| == c.size
      && (forall p :: 0 <= p < i && p < c.size ==> ssd.view[victim].pages[p].state == INVALID)
      && (forall p :: i <= p < c.size ==> ssd.view[victim].pages[p] == before.pages[p])
    }

    // Where `n` moved pages have taken the allocator: within the block it was
    // in, or into one new block.
    ghost predicate Spent(free0: int, left0: int, available0: seq<nat>, n: int)
      reads this, bm
    {
      || (Free() == free0 && Left() == left0 - n && Available() == available0)
      || (Free() == free0 - 1 && Left() == c.size + left0 - n && TookOne(available0))
    }

    ghost predicate TookOne(available0: seq<nat>)
      reads bm
    {
      available0 != [] && Available() == available0[1..]
    }

    method VisitPage(victim: nat, i: nat, moved: map<nat, PageAddr>, ghost start: State, ghost before: BlockValue,
                     ghost free0: int, ghost left0: int, ghost available0: seq<nat>, ghost n: int,
                       ghost ppn: seq<Option<PageAddr>>,
                     ghost owner: map<PageAddr, nat>)
      returns (moved': map<nat, PageAddr>, ghost n': int, ghost ppn': seq<Option<PageAddr>>,
        ghost owner': map<PageAddr, nat>)
      requires Fixed() && Core(ppn, owner, false) && Cleanable(c, E(ppn, owner), victim) &&
          Moves(start, ppn, owner, victim, moved)
      requires i < c.size && Visited(victim, i, before) && start.owner == parent.reverseTransMap
      requires Spent(free0, left0, available0, n) && 0 <= n <= i && free0 >= 2 && left0 >= 0
      modifies `currentDataPage, `contents, bm, ssd, ssd.Repr
      ensures Core(ppn', owner', false) && Cleanable(c, E(ppn', owner'), victim) &&
          Moves(start, ppn', owner', victim, moved')
      ensures Visited(victim, i + 1, before) && contents == old(contents)
      ensures Spent(free0, left0, available0, n') && n' == n + (if before.pages[i].state == INVALID then 0 else 1)
    {
      hide Inv, Ssd.Valid, Represents, Moves, Managed;
      FullBlock(c, E(ppn, owner), victim);
      ShapeOf(c, E(ppn, owner), false);
      moved', n', ppn', owner' := moved, n, ppn, owner;
      var state := ssd.GetState(PageAddr(victim, i));
      assert state != EMPTY;
      if state == VALID {
        OwnerKnown(c, start, E(ppn, owner), victim, moved, i);
        MovePage(victim, i, ppn, owner);
        var v := parent.reverseTransMap[PageAddr(victim, i)];
        ShapeOf(c, E(ppn[v := currentDataPage], owner[currentDataPage.value := v]), false);
        MovesMore(start, ppn, owner, victim, moved, v, currentDataPage.value);
        moved', n' := moved[v := currentDataPage.value], n + 1;
        ppn', owner' := ppn[v := currentDataPage], owner[currentDataPage.value := v];
      }
    }

    method MovePages(victim: nat)
      returns (moved: map<nat, PageAddr>, ghost ppn: seq<Option<PageAddr>>, ghost owner: map<PageAddr, nat>)
      requires Fixed() && Core(Ppns(parent.transMap), parent.reverseTransMap, false) && Cleanable(c, S(), victim)
      requires Free() >= 2 && exists p :: 0 <= p < c.size && ssd.view[victim].pages[p].state == INVALID
      modifies `currentDataPage, `contents, bm, ssd, ssd.Repr
      ensures Core(ppn, owner, false) && Cleanable(c, E(ppn, owner), victim) &&
          Moves(old(S()), ppn, owner, victim, moved)
      ensures NoneValid(ssd.view[victim]) && contents == old(contents)
      ensures || (Free() == old(Free()) && Available() == old(Available()))
              || (Free() == old(Free()) - 1 && Left() > old(Left()) && TookOne(old(Available())))
    {
      hide Inv, Ssd.Valid, Represents, Moves, Managed;
      ghost var start, before := S(), ssd.view[victim];
      ghost var free0, left0, available0, n := Free(), Left(), Available(), 0;
      moved, ppn, owner := map[], start.ppn, start.owner;
      MovesNothing(start, victim);
      assert left0 >= 0;
      for i := 0 to c.size
        invariant Core(ppn, owner, false) && Cleanable(c, E(ppn, owner), victim) &&
            Moves(start, ppn, owner, victim, moved)
        invariant Visited(victim, i, before) && contents == old(contents)
        invariant Spent(free0, left0, available0, n) && 0 <= n <= i
        invariant (exists p :: 0 <= p < i && before.pages[p].state == INVALID) ==> n < i
      {
        moved, n, ppn, owner := VisitPage(victim, i, moved, start, before, free0, left0, available0, n, ppn, owner);
      }
    }

    // While nothing on the unfilled translation page is mapped, mapped pages lie
    // on filled ones.
    lemma TameIsWhole(pages: set<nat>)
      requires parent.Valid() && forall v :: v in pages ==>
          v < |Ppns(parent.transMap)| && Ppns(parent.transMap)[v].Some?
      ensures parent.Tame() ==> parent.AllWhole(pages, |parent.transMap|)
    {
      hide Whole;
      if parent.Tame() {
        forall v | v in pages ensures Whole(v, parent.addressPerPage, |parent.transMap|) {
          PpnsAt(parent.transMap, v);
        }
      }
    }

    // Copies the live pages of the victim away and repoints their mappings.
    method CleanupBlock(victim: nat, startTime: real)
      requires Fixed() && Core(Ppns(parent.transMap), parent.reverseTransMap, false) && parent.Valid() &&
          startTime >= 0.0
      requires Cleanable(c, S(), victim) && Free() >= 2
      requires exists p :: 0 <= p < c.size && ssd.view[victim].pages[p].state == INVALID
      modifies `currentDataPage, `contents, bm, ssd, ssd.Repr, parent`transMap, parent`reverseTransMap, parent`cmt
      ensures Core(Ppns(parent.transMap), parent.reverseTransMap, false) && parent.Valid()
      ensures Cleanable(c, S(), victim) && NoneValid(ssd.view[victim]) && contents == old(contents)
      ensures old(parent.Tame()) ==> parent.Tame()
      ensures Touched(old(parent.transMap), startTime, parent.transMap)
      ensures || (Free() == old(Free()) && Available() == old(Available()))
              || (Free() == old(Free()) - 1 && Left() > old(Left()) && TookOne(old(Available())))
    {
      hide Inv, Ssd.Valid, Represents, Moves, Managed, FtlImpl_DftlParent.Valid, NoneValid, Remapped, Rehomed, Ppns,
          Repointed, Touched;
      ghost var start := S();
      ForwardKnown(c, start);
      var moved, ppn, owner := MovePages(victim);
      MovedDistinct(c, start, E(ppn, owner), victim, moved);
      PpnsLength(parent.transMap);
      ShapeOf(c, E(ppn, owner), false);
      MovesLength(start, ppn, owner, victim, moved);
      TameIsWhole(moved.Keys);
      ghost var table := parent.transMap;
      parent.ApplyMoves(moved, startTime);
      RepointedIsTouched(table, moved, startTime, parent.transMap);
      MapsRestored(c, start, E(ppn, owner), victim, moved, parent.reverseTransMap, Ppns(parent.transMap), contents);
      ShapeOf(c, S(), false);
    }

    // The block was put last, and at most one block was taken before.
    ghost predicate Returned(available0: seq<nat>, victim: nat)
      reads bm
    {
      Available() == available0 + [victim] || (available0 != [] && Available() == available0[1..] + [victim])
    }

    // Cleans the victim, erases it and puts it on the free list.
    method Reclaim(victim: nat, startTime: real)
      requires Fixed() && Core(Ppns(parent.transMap), parent.reverseTransMap, false) && parent.Valid() &&
          startTime >= 0.0
      requires Cleanable(c, S(), victim) && Free() >= 2
      requires exists p :: 0 <= p < c.size && ssd.view[victim].pages[p].state == INVALID
      modifies `currentDataPage, `contents, bm, ssd, ssd.Repr, parent`transMap, parent`reverseTransMap, parent`cmt
      ensures Core(Ppns(parent.transMap), parent.reverseTransMap, false) && parent.Valid()
      ensures contents == old(contents) && currentDataPage.Some?
      ensures old(parent.Tame()) ==> parent.Tame()
      ensures Gained(old(Free()), old(Left()), Free(), Left()) && Returned(old(Available()), victim)
      ensures Touched(old(parent.transMap), startTime, parent.transMap)
    {
      hide Inv, Ssd.Valid, Represents, FtlImpl_DftlParent.Valid, Ppns, NoneValid, Untaken, Touched;
      CleanupBlock(victim, startTime);
      EraseStep(c, S(), victim, contents);
      ssd.Erase(victim);
      bm.freeList := bm.freeList + [victim];
    }

    // end() of the cost order, or the element before it when that one is
    // excluded: a block with the most INVALID pages. Ties may go either way.
    method LastByCost(exclude: int) returns (block: nat)
      requires Fixed() && ssd.Valid() && |ssd.view| == c.blocks
      ensures block < c.blocks && block != exclude
      ensures forall b :: 0 <= b < c.blocks && b != exclude ==> ssd.view[b].invalid <= ssd.view[block].invalid
    {
      hide Ssd.Valid;
      block := if exclude == 0 then 1 else 0;
      var most := ssd.GetNumInvalid(block);
      for i := 0 to c.blocks
        invariant block < c.blocks && block != exclude && most == ssd.view[block].invalid
        invariant forall b :: 0 <= b < i && b != exclude ==> ssd.view[b].invalid <= most
      {
        var n := ssd.GetNumInvalid(i);
        var breakTie: bool := *;
        if i != exclude && (n > most || (n == most && breakTie)) {
          block, most := i, n;
        }
      }
    }

    // The block the pass looks at next: never the one being written.
    method NextCandidate() returns (it: nat)
      requires Fixed() && ssd.Valid() && |ssd.view| == c.blocks
      ensures it < c.blocks && it != bm.currentWritingBlock && MostInvalid(it)
    {
      hide Ssd.Valid;
      it := LastByCost(-1);
      if it == bm.currentWritingBlock {
        it := LastByCost(it);
      }
    }

    ghost predicate Reclaimable(b: nat)
      reads ssd
    {
      b < |ssd.view| && ssd.view[b].invalid > 0 && ssd.view[b].valid == c.size
    }

    method CanReclaim(b: nat) returns (ok: bool)
      requires Fixed() && ssd.Valid() && b < |ssd.view| && |ssd.view[b].pages| == c.size
      ensures ok <==> Reclaimable(b)
      ensures ok ==> exists p :: 0 <= p < c.size && ssd.view[b].pages[p].state == INVALID
    {
      hide Ssd.Valid;
      var invalid := ssd.GetNumInvalid(b);
      var valid := ssd.GetNumValid(b);
      ok := invalid > 0 && valid == c.size;
    }

    // The use of the drive is past the 0.9 threshold of insert_events.
    ghost predicate Wanted()
      reads bm
    {
      WantsCleaning(c.blocks, |bm.invalidList|, bm.logActive, bm.dataActive, |bm.freeList|)
    }

    ghost predicate MayClean()
      reads bm
    {
      Wanted() || AtThreshold(c.blocks, |bm.invalidList|, bm.logActive, bm.dataActive, |bm.freeList|)
    }

    // No block but the one being written has an INVALID page.
    ghost predicate OnlyCurrentHasInvalid()
      reads bm, ssd
    {
      forall b :: 0 <= b < |ssd.view| && b != bm.currentWritingBlock ==> ssd.view[b].invalid == 0
    }

    ghost predicate MostInvalid(it: int)
      reads bm, ssd
    {
      0 <= it < |ssd.view| && forall b :: 0 <= b < |ssd.view| && b != bm.currentWritingBlock ==>
        ssd.view[b].invalid <= ssd.view[it].invalid
    }

    // A pass that stops at a candidate it cannot reclaim has nothing to reclaim.
    lemma StoppedEmpty(it: nat)
      requires Valid() && MostInvalid(it) && !Reclaimable(it) && (it != bm.currentWritingBlock || Left() == 0)
      ensures OnlyCurrentHasInvalid()
    {
      hide Represents, FtlImpl_DftlParent.Valid, Ppns;
      if ssd.view[it].invalid > 0 {
        InvalidInUse(c, S(), it);
      }
    }

    lemma CandidateCleanable(it: nat)
      requires Valid() && Reclaimable(it) && it != bm.currentWritingBlock
      ensures Cleanable(c, S(), it)
    {
      hide Represents, FtlImpl_DftlParent.Valid, Ppns, Inverse, Filled;
      InvalidInUse(c, S(), it);
    }

    lemma ViewSizes()
      requires Valid()
      ensures Fixed() && ssd.Valid() && |ssd.view| == c.blocks && forall b :: 0 <= b < c.blocks ==>
          |ssd.view[b].pages| == c.size
    {
      ShapeOf(c, S(), false);
    }

    // Five turns, one of them without effect when the first candidate is the
    // block being written, or nothing left to reclaim.
    ghost predicate PassEnded(reclaimed: nat, skipped: bool)
      reads bm, ssd
    {
      reclaimed == 5 || (reclaimed == 4 && skipped) || (reclaimed < 5 && OnlyCurrentHasInvalid())
    }

    // One collection pass, entered with the current block full. It reclaims at
    // most five blocks, and fewer than four only when no block but the current
    // one has an INVALID page left; each reclaimed block leaves more free space.
    method InsertEvents(startTime: real) returns (ghost reclaimed: seq<nat>)
      requires Valid() && Left() == 0 && startTime >= 0.0
      modifies `currentDataPage, `contents, bm, ssd, ssd.Repr, parent`transMap, parent`reverseTransMap, parent`cmt
      ensures Valid() && contents == old(contents)
      ensures old(parent.Tame()) ==> parent.Tame()
      ensures Cycled(old(Available()), reclaimed, Available()) && |reclaimed| <= 5
      ensures Touched(old(parent.transMap), startTime, parent.transMap)
      ensures if reclaimed == [] then S() == old(S()) && bm.dataActive == old(bm.dataActive)
              else Gained(old(Free()), 0, Free(), Left())
      ensures reclaimed == [] && Wanted() ==> OnlyCurrentHasInvalid()
      ensures old(Wanted()) ==> PassEnded(|reclaimed|, old(MostInvalid(bm.currentWritingBlock)))
      ensures reclaimed != [] ==> old(MayClean())
    {
      hide Core, FtlImpl_DftlParent.Valid, Ppns, OnlyCurrentHasInvalid, MostInvalid, Cycled, Available, Touched;
      reclaimed := [];
      NotTouched(parent.transMap, startTime);
      CycledNone(Available());
      var roundedUp: bool := *;
      if WantsCleaning(c.blocks, |bm.invalidList|, bm.logActive, bm.dataActive, |bm.freeList|)
         || (roundedUp && AtThreshold(c.blocks, |bm.invalidList|, bm.logActive, bm.dataActive, |bm.freeList|)) {
        reclaimed := CollectInvalid(startTime);
      }
    }

    // The while-loop of the pass.
    method CollectInvalid(startTime: real) returns (ghost reclaimed: seq<nat>)
      requires Valid() && Left() == 0 && startTime >= 0.0
      modifies `currentDataPage, `contents, bm, ssd, ssd.Repr, parent`transMap, parent`reverseTransMap, parent`cmt
      ensures Valid() && contents == old(contents)
      ensures old(parent.Tame()) ==> parent.Tame()
      ensures Cycled(old(Available()), reclaimed, Available()) && |reclaimed| <= 5
      ensures Touched(old(parent.transMap), startTime, parent.transMap)
      ensures if reclaimed == [] then S() == old(S()) && bm.dataActive == old(bm.dataActive)
              else Gained(old(Free()), 0, Free(), Left())
      ensures PassEnded(|reclaimed|, old(MostInvalid(bm.currentWritingBlock)))
    {
      hide Valid, Fixed, OnlyCurrentHasInvalid, Reclaimable, MostInvalid, FtlImpl_DftlParent.Tame, Cycled, Available,
          Touched;
      ViewSizes();
      NotTouched(parent.transMap, startTime);
      var numToErase := 5;
      var it: nat := LastByCost(-1);
      AllMostInvalid(it);
      var goOn := CanReclaim(it);
      reclaimed := [];
      CycledNone(Available());
      ghost var skips := if it == bm.currentWritingBlock then 1 else 0;
      while numToErase != 0 && goOn
        invariant 0 <= numToErase <= 5 && Valid() && contents == old(contents) && it < |ssd.view| && MostInvalid(it)
        invariant if reclaimed != [] then Gained(old(Free()), 0, Free(), Left())
                  else S() == old(S()) && bm.dataActive == old(bm.dataActive) && Left() == 0
        invariant goOn <==> Reclaimable(it)
        invariant old(parent.Tame()) ==> parent.Tame()
        invariant if numToErase < 5 then it != bm.currentWritingBlock && |reclaimed| == 5 - numToErase - skips
                  else reclaimed == [] && (skips == 1 <==> it == bm.currentWritingBlock)
        invariant Cycled(old(Available()), reclaimed, Available())
        invariant Touched(old(parent.transMap), startTime, parent.transMap)
        decreases numToErase
      {
        it, goOn, reclaimed := PassStep(it, startTime, reclaimed, old(Available()), old(parent.transMap));
        numToErase := numToErase - 1;
      }
      if numToErase > 0 {
        StoppedEmpty(it);
      }
    }

    lemma OneMoreCycled(available0: seq<nat>, reclaimed: seq<nat>, before: seq<nat>, victim: nat)
      requires Cycled(available0, reclaimed, before) && before != [] && Returned(before, victim)
      ensures Cycled(available0, reclaimed + [victim], Available())
    {
      CycledMore(available0, reclaimed, before, victim, Available());
    }

    // One turn of that loop: the candidate is reclaimed unless it is being written.
    method PassStep(it: nat, startTime: real, ghost reclaimed: seq<nat>, ghost available0: seq<nat>,
                    ghost table0: seq<MPage>)
      returns (next: nat, goOn: bool, ghost reclaimed': seq<nat>)
      requires Valid() && Reclaimable(it) && startTime >= 0.0 && Cycled(available0, reclaimed, Available())
      requires Touched(table0, startTime, parent.transMap)
      modifies `currentDataPage, `contents, bm, ssd, ssd.Repr, parent`transMap, parent`reverseTransMap, parent`cmt
      ensures Valid() && contents == old(contents)
      ensures old(parent.Tame()) ==> parent.Tame()
      ensures reclaimed' == reclaimed + (if it == old(bm.currentWritingBlock) then [] else [it])
      ensures Cycled(available0, reclaimed', Available()) && Touched(table0, startTime, parent.transMap)
      ensures if it != old(bm.currentWritingBlock) then Gained(old(Free()), old(Left()), Free(), Left())
              else S() == old(S()) && bm.dataActive == old(bm.dataActive)
      ensures next < |ssd.view| && next != bm.currentWritingBlock && MostInvalid(next)
      ensures goOn <==> Reclaimable(next)
    {
      hide Valid, Fixed, Reclaimable, MostInvalid, FtlImpl_DftlParent.Tame, Returned, Cycled, Available, Touched;
      reclaimed' := reclaimed;
      if bm.currentWritingBlock != it {
        SomeAvailable();
        ghost var before, table := Available(), parent.transMap;
        ReclaimCandidate(it, startTime);
        TouchedMore(table0, startTime, table, parent.transMap);
        OneMoreCycled(available0, reclaimed, before, it);
        reclaimed' := reclaimed + [it];
      }
      ViewSizes();
      next := NextCandidate();
      goOn := CanReclaim(next);
    }

    lemma AllMostInvalid(it: nat)
      requires it < |ssd.view| && forall b :: 0 <= b < |ssd.view| ==> ssd.view[b].invalid <= ssd.view[it].invalid
      ensures MostInvalid(it)
    {}

    method ReclaimCandidate(it: nat, startTime: real)
      requires Valid() && Reclaimable(it) && it != bm.currentWritingBlock && startTime >= 0.0
      modifies `currentDataPage, `contents, bm, ssd, ssd.Repr, parent`transMap, parent`reverseTransMap, parent`cmt
      ensures Valid() && contents == old(contents)
      ensures old(parent.Tame()) ==> parent.Tame()
      ensures Gained(old(Free()), old(Left()), Free(), Left()) && Returned(old(Available()), it)
      ensures Touched(old(parent.transMap), startTime, parent.transMap)
    {
      hide Returned, Touched;
      hide Core, FtlImpl_DftlParent.Valid, Ppns;
      ViewSizes();
      CandidateCleanable(it);
      var ok := CanReclaim(it);
      Reclaim(it, startTime);
    }

    // Few enough logical pages are live for the drive to keep working: all but
    // three blocks could hold them, with a page to spare.
    ghost predicate HasRoom(also: set<nat>)
      reads this
    {
      |contents.Keys + also| < (c.blocks - 3) * c.size
    }

    // After a pass at a full block there is a third free block, or room.
    lemma EnoughAfterPass(free0: int)
      requires Valid() && |contents| < (c.blocks - 3) * c.size && free0 >= 2
      requires Gained(free0, 0, Free(), Left()) || !Wanted() || OnlyCurrentHasInvalid()
      ensures Left() == 0 ==> Gained(free0, 0, Free(), Left()) || Free() >= 3
    {
      hide FtlImpl_DftlParent.Valid, Ppns, Inv, Ssd.Valid, Represents;
      if Left() == 0 && !Gained(free0, 0, Free(), Left()) && Wanted() {
        ShapeOf(c, S(), false);
        forall b | 0 <= b < c.blocks && b != bm.currentWritingBlock ensures NoneInvalid(ssd.view[b]) {
          ssd.NoInvalidPages(b);
        }
        assert currentDataPage.Some?;
        ThirdFreeBlock(c, S(), contents);
      }
    }

    // The next page for host data: the source may clean blocks first, which can
    // itself move the current page. Within a block it is the page after.
    method GetFreeDataPage(startTime: real) returns (ghost reclaimed: seq<nat>)
      requires Valid() && |contents| < (c.blocks - 3) * c.size && startTime >= 0.0
      modifies `currentDataPage, `contents, bm, ssd, ssd.Repr, parent`transMap, parent`reverseTransMap, parent`cmt
      ensures Core(Ppns(parent.transMap), parent.reverseTransMap, true) && parent.Valid() && Free() >= 2
      ensures currentDataPage.Some? && contents == old(contents)
      ensures old(parent.Tame()) ==> parent.Tame()
      ensures Cycled(old(Available()), reclaimed, Available()) && |reclaimed| <= 5
      ensures Touched(old(parent.transMap), startTime, parent.transMap)
      ensures old(Left()) > 0 ==>
          && reclaimed == [] && Available() == old(Available()) && old(currentDataPage).Some?
          && currentDataPage.value == PageAddr(old(currentDataPage).value.block, old(currentDataPage).value.page + 1)
    {
      hide Core, FtlImpl_DftlParent.Valid, Ppns, Wanted, OnlyCurrentHasInvalid, Cycled, Available, MostInvalid,
          PassEnded, Touched;
      reclaimed := [];
      NotTouched(parent.transMap, startTime);
      CycledNone(Available());
      var atEnd := AtBlockEnd();
      if atEnd {
        ghost var free0 := Free();
        reclaimed := InsertEvents(startTime);
        EnoughAfterPass(free0);
      }
      atEnd := AtBlockEnd();
      if atEnd {
        SomeAvailable();
        CycledTake(old(Available()), reclaimed, Available());
        NextBlock(Ppns(parent.transMap), parent.reverseTransMap);
      } else {
        NextPage(Ppns(parent.transMap), parent.reverseTransMap);
      }
    }

    method AtBlockEnd() returns (atEnd: bool)
      requires Valid()
      ensures atEnd <==> Left() == 0
      ensures !atEnd ==> currentDataPage.Some? && Left() > 0
    {
      hide Core, FtlImpl_DftlParent.Valid, Ppns;
      if currentDataPage.None? {
        return true;
      }
      PageInBlock(Ppns(parent.transMap), parent.reverseTransMap);
      atEnd := currentDataPage.value.page % c.size == c.size - 1;
    }

    // The host sees the written bytes at that page and every other page as it
    // was, whether or not the page moved while room was made for it.
    method Write(dlpn: nat, bytes: Bytes, startTime: real)
      returns (ghost reclaimed: seq<nat>, ghost resolved: seq<MPage>)
      requires Valid() && dlpn < c.logical && startTime >= 0.0 && HasRoom({})
      modifies `currentDataPage, `contents, bm, ssd, ssd.Repr
      modifies parent`transMap, parent`reverseTransMap, parent`cmt, parent`overrun, parent`history
      ensures Valid() && contents == old(contents)[dlpn := bytes] && dlpn < |parent.transMap|
      ensures Requests(parent.history) == Requests(old(parent.history)) + [Asked(dlpn, true, startTime)]
      ensures Cycled(old(Available()), reclaimed, Available()) && |reclaimed| <= 5
      ensures currentDataPage.Some? && parent.transMap[dlpn].ppn == currentDataPage
      ensures Touched(resolved, startTime, parent.transMap) && dlpn < |resolved| && resolved[dlpn].cached
      ensures resolved[dlpn].lastVisited == startTime
      ensures resolved[dlpn].modifiedTs == if old(parent.transMap)[dlpn].cached then startTime else startTime + 1.0
      ensures old(Left()) > 0 ==>
          && reclaimed == [] && Available() == old(Available()) && old(currentDataPage).Some?
          && currentDataPage.value == PageAddr(old(currentDataPage).value.block, old(currentDataPage).value.page + 1)
      ensures old(parent.Tame()) && OnFilledPage(dlpn) ==> parent.Tame() && parent.overrun == old(parent.overrun)
    {
      hide Core, FtlImpl_DftlParent.Valid, Ppns, Cycled, Available, Touched;
      MapLength();
      assert contents.Keys + {} == contents.Keys;
      parent.ResolveMapping(dlpn, true, startTime);
      resolved := parent.transMap;
      reclaimed := GetFreeDataPage(startTime);
      TouchedRemap(resolved, startTime, parent.transMap, dlpn, currentDataPage);
      WriteCurrentPage(dlpn, bytes);
    }

    lemma MapLength()
      requires Valid()
      ensures |parent.transMap| == c.logical
    {
      ShapeOf(c, S(), false);
    }

    // The mapping is read only now: cleaning may just have changed it.
    method WriteCurrentPage(dlpn: nat, bytes: Bytes)
      requires Fixed() && Core(Ppns(parent.transMap), parent.reverseTransMap, true) && parent.Valid() && Free() >= 2
      requires currentDataPage.Some? && dlpn < c.logical
      modifies `contents, ssd, ssd.Repr, parent`transMap, parent`reverseTransMap
      ensures Valid() && contents == old(contents)[dlpn := bytes] && dlpn < |parent.transMap|
      ensures parent.transMap == old(parent.transMap)[dlpn := old(parent.transMap)[dlpn].(ppn := currentDataPage)]
      ensures old(parent.Tame()) && OnFilledPage(dlpn) ==> parent.Tame()
    {
      hide FtlImpl_DftlParent.Valid, Ppns, Inv, Represents, Ssd.Valid, Managed, AfterWrite;
      ghost var ppn, owner := Ppns(parent.transMap), parent.reverseTransMap;
      MappedIsPage(c, S(), dlpn);
      PpnsLength(parent.transMap);
      PpnsAt(parent.transMap, dlpn);
      var replaced := parent.transMap[dlpn].ppn;
      parent.Remap(dlpn, currentDataPage.value);
      Program(dlpn, bytes, replaced, ppn, owner);
    }

    // A page that is not mapped reads no data at all.
    method Read(dlpn: nat, startTime: real) returns (bytes: Bytes)
      requires Valid() && dlpn < c.logical && startTime >= 0.0
      modifies parent`transMap, parent`cmt, parent`overrun, parent`history
      ensures Valid() && contents == old(contents)
      ensures Requests(parent.history) == Requests(old(parent.history)) + [Asked(dlpn, false, startTime)]
      ensures old(parent.Tame()) ==> parent.Tame() && parent.overrun == old(parent.overrun)
      ensures bytes == if dlpn in contents then contents[dlpn] else Unwritten
    {
      hide FtlImpl_DftlParent.Valid, Ppns, Inv, Represents, Ssd.Valid, Managed;
      PpnsLength(parent.transMap);
      ShapeOf(c, S(), false);
      parent.ResolveMapping(dlpn, false, startTime);
      PpnsLength(parent.transMap);
      PpnsAt(parent.transMap, dlpn);
      MappedContent(c, S(), dlpn, contents);
      var current := parent.transMap[dlpn].ppn;
      bytes := Unwritten;
      if current.Some? {
        bytes := ssd.Read(current.value);
      }
    }

    // The page is forgotten. cmt falls behind the number of cached entries by
    // one exactly when the page was mapped and its entry cached.
    method Trim(dlpn: nat)
      requires Valid() && dlpn < c.logical
      modifies `contents, ssd, ssd.Repr
      modifies parent`transMap, parent`reverseTransMap, parent`cmt, parent`drift, parent`overrun
      ensures old(parent.Tame()) ==> parent.Tame() && parent.overrun == old(parent.overrun)
      ensures Valid() && contents == old(contents) - {dlpn}
      ensures parent.drift ==
          old(parent.drift) + (if old(dlpn in contents && parent.transMap[dlpn].cached) then 1 else 0)
      ensures parent.overrun == (old(parent.overrun) || old(dlpn in contents && parent.TrimOverruns(dlpn)))
      ensures if dlpn in old(contents) then Dropped(old(parent.transMap), dlpn)
          else parent.transMap == old(parent.transMap)
    {
      hide Core, FtlImpl_DftlParent.Valid, Ppns;
      MapLength();
      PpnsAt(parent.transMap, dlpn);
      MappedIffContent(dlpn);
      var current := parent.transMap[dlpn].ppn;
      if current.Some? {
        TrimMapped(dlpn, current.value);
      } else {
        assert contents - {dlpn} == contents;
      }
    }

    // The entry no longer maps the page, and stays in the cache if it was there.
    // Had it been dirty, its cached siblings have been made clean.
    ghost predicate Dropped(before: seq<MPage>, dlpn: nat)
      reads parent
    {
      && parent.addressPerPage > 0 && SiblingsCleaned(before, dlpn, parent.transMap, parent.addressPerPage)
      && parent.transMap[dlpn] == before[dlpn].(ppn := None)
    }

    lemma HistoryIsLru()
      requires Valid()
      ensures LruHistory(parent.history)
    {
      hide Core, LruHistory;
    }

    lemma MappedIffContent(dlpn: nat)
      requires Valid() && dlpn < c.logical
      ensures |parent.transMap| == c.logical
      ensures dlpn in contents <==> parent.transMap[dlpn].ppn.Some?
    {
      PpnsAt(parent.transMap, dlpn);
      MappedContent(c, S(), dlpn, contents);
    }

    method TrimMapped(dlpn: nat, at: PageAddr)
      requires Valid() && dlpn < c.logical == |parent.transMap| && parent.transMap[dlpn].ppn == Some(at)
      modifies `contents, ssd, ssd.Repr
      modifies parent`transMap, parent`reverseTransMap, parent`cmt, parent`drift, parent`overrun
      ensures old(parent.Tame()) ==> parent.Tame() && parent.overrun == old(parent.overrun)
      ensures Valid() && contents == old(contents) - {dlpn}
      ensures parent.drift == old(parent.drift) + (if old(parent.transMap[dlpn].cached) then 1 else 0)
      ensures parent.overrun == (old(parent.overrun) || old(parent.TrimOverruns(dlpn)))
      ensures Dropped(old(parent.transMap), dlpn)
    {
      hide FtlImpl_DftlParent.Tame, FtlImpl_DftlParent.TrimOverruns, Ppns, Inv, Represents, Ssd.Valid, Whole, TableOk,
          Cached;
      assert parent.addressPerPage > 0;
      hide FtlImpl_DftlParent.Valid;
      if parent.Tame() {
        parent.MappedIsWhole(dlpn);
      }
      ghost var s := S();
      PpnsAt(parent.transMap, dlpn);
      ShapeOf(c, s, false);
      TrimStep(c, s, dlpn, contents);
      ssd.Replace(at);
      parent.Unmap(dlpn);
      contents := contents - {dlpn};
    }

    // Any sequence of host requests: reads of mapped pages return what a plain
    // map would, cleaning included, and the layer never runs out of blocks
    // while the pages in use and those the requests write leave three blocks'
    // worth unused. cmt stays exact when nothing is trimmed.
    method Serve(requests: seq<Request>, ghost written: set<nat>) returns (replies: seq<Bytes>)
      requires Valid() && HasRoom(written)
      requires forall i :: 0 <= i < |requests| ==> requests[i].page < c.logical && requests[i].moment.startTime >= 0.0
      requires forall i :: 0 <= i < |requests| && requests[i].Write? ==> requests[i].page in written
      modifies `currentDataPage, `contents, bm, ssd, ssd.Repr, parent
      ensures Valid() && HasRoom(written) && contents == HostMap(old(contents), requests)
      ensures Answered(old(contents), requests, replies)
      ensures Requests(parent.history) == Requests(old(parent.history)) + Lookups(requests)
      ensures (forall i :: 0 <= i < |requests| ==> !requests[i].Trim?) ==> parent.drift == old(parent.drift)
      ensures (forall i :: 0 <= i < |requests| && requests[i].Write? ==> OnFilledPage(requests[i].page)) ==>
                old(parent.Tame()) ==> parent.Tame() && parent.overrun == old(parent.overrun)
      decreases |requests|
    {
      hide Core, HasRoom, Answered, HostStep, FtlImpl_DftlParent.Valid, Ppns;
      if |requests| == 0 {
        replies := [];
        AnsweredNothing(contents);
        return;
      }
      hide Lookups, Requests;
      var earlier, last := requests[..|requests| - 1], requests[|requests| - 1];
      LookupsMore(earlier, last);
      replies := Serve(earlier, written);
      var reply := ServeOne(last, written);
      AnsweredMore(old(contents), earlier, replies, last, reply);
      assert requests == earlier + [last];
      replies := replies + [reply];
    }

    method ServeOne(request: Request, ghost written: set<nat>) returns (reply: Bytes)
      requires Valid() && HasRoom(written) && request.page < c.logical && request.moment.startTime >= 0.0
      requires request.Write? ==> request.page in written
      modifies `currentDataPage, `contents, bm, ssd, ssd.Repr, parent
      ensures Valid() && HasRoom(written) && contents == HostStep(old(contents), request)
      ensures request.Read? && request.page in old(contents) ==> reply == old(contents)[request.page]
      ensures Requests(parent.history) == Requests(old(parent.history)) + Lookups([request])
      ensures !request.Trim? ==> parent.drift == old(parent.drift)
      ensures old(parent.Tame()) && (request.Write? ==> OnFilledPage(request.page)) ==>
                parent.Tame() && parent.overrun == old(parent.overrun)
    {
      hide Core, FtlImpl_DftlParent.Valid, Ppns;
      hide Lookups, Requests, Touched, Cycled, Available, Dropped, FtlImpl_DftlParent.Tame,
          FtlImpl_DftlParent.TrimOverruns;
      LookupsOne(request);
      SubsetSize(contents.Keys + {}, contents.Keys + written);
      ghost var before := contents;
      reply := Unwritten;
      match request {
        case Read(dlpn, moment) =>
          reply := Read(dlpn, moment.startTime);
        case Write(dlpn, bytes, moment) =>
          ghost var _, _ := Write(dlpn, bytes, moment.startTime);
        case Trim(dlpn, _) =>
          Trim(dlpn);
      }
      SubsetSize(contents.Keys + written, before.Keys + written);
    }
  }

  // From a drive just powered on: any requests, cleaning included. With every
  // write on a translation page that the map fills, no sibling loop leaves it.
  method PowerOnAndServe(g: Geometry, addressPerPage: nat, totalCMTentries: nat, requests: seq<Request>,
                         ghost written: set<nat>)
    returns (replies: seq<Bytes>, ghost overrun: bool, ghost history: seq<Touch>)
    requires g.Positive() && g.Blocks() > 20 && addressPerPage > 0 && totalCMTentries > 0
    requires |written| < (g.Blocks() - 3) * g.blockSize
    requires forall i :: 0 <= i < |requests| ==> requests[i].page < g.Capacity() && requests[i].moment.startTime >= 0.0
    requires forall i :: 0 <= i < |requests| && requests[i].Write? ==> requests[i].page in written
    ensures Answered(map[], requests, replies)
    ensures (forall i :: 0 <= i < |requests| && requests[i].Write? ==>
               Whole(requests[i].page, addressPerPage, g.Capacity())) ==> !overrun
    ensures LruHistory(history) && Requests(history) == Lookups(requests)
  {
    hide Answered, Inv, Ssd.Valid, Whole, FtlImpl_Dftl.Valid, FtlImpl_DftlParent.Tame, LruHistory, Lookups;
    var ssd := new Ssd(g);
    var ftl := new FtlImpl_Dftl(ssd, addressPerPage, totalCMTentries);
    assert ftl.contents.Keys + written == written;
    replies := ftl.Serve(requests, written);
    ftl.HistoryIsLru();
    overrun, history := ftl.parent.overrun, ftl.parent.history;
  }
}
