// Pages and blocks (ssd_page.cpp, ssd_block.cpp), and the tree of packages,
// dies, planes and blocks that events are routed through (ssd_ssd.cpp,
// ssd_package.cpp, ssd_die.cpp, ssd_plane.cpp).
module Flash {
  import opened Arithmetic
  import opened Geometry

  newtype Byte = x: int | 0 <= x < 256
  type Bytes = seq<Byte>

  datatype Option<+T> = None | Some(value: T)

  datatype PageState = EMPTY | VALID | INVALID
  datatype BlockState = FREE | ACTIVE | INACTIVE

  // A page's state and the bytes of page_data that belong to it.
  datatype Page = Page(state: PageState, data: Bytes)

  // A page by the number of its block and its place in the block. Geometry
  // relates the pair to linear addresses.
  datatype PageAddr = PageAddr(block: nat, page: nat)

  // The value of a block. `valid` counts programs since the last erase.
  datatype BlockValue = BlockValue(pages: seq<Page>, valid: nat, invalid: nat, state: BlockState) {
    ghost predicate WellFormed(size: nat) {
      && |pages| == size && size > 0
      && invalid == CountInvalid(pages)
      && (state == INACTIVE <==> invalid == size)
      && (state == FREE <==> valid == 0 && invalid == 0)
    }

    predicate Blank() {
      (forall i :: 0 <= i < |pages| ==> pages[i].state == EMPTY) && valid == 0 && invalid == 0 && state == FREE
    }

    function Program(page: nat, data: Bytes): BlockValue
      requires page < |pages|
    {
      BlockValue(pages[page := Page(VALID, data)], valid + 1, invalid, ACTIVE)
    }

    function Invalidate(page: nat): BlockValue
      requires page < |pages|
    {
      if pages[page].state == INVALID then this
      else
        BlockValue(pages[page := Page(INVALID, pages[page].data)], valid, invalid + 1,
                   if invalid + 1 >= |pages| then INACTIVE else ACTIVE)
    }

    // Erasing leaves the bytes where they are.
    function Erase(): BlockValue {
      BlockValue(seq(|pages|, i requires 0 <= i < |pages| => Page(EMPTY, pages[i].data)), 0, 0, FREE)
    }
  }

  ghost function CountInvalid(pages: seq<Page>): (n: nat)
    ensures n <= |pages|
  {
    if |pages| == 0 then 0
    else CountInvalid(pages[..|pages| - 1]) + (if pages[|pages| - 1].state == INVALID then 1 else 0)
  }

  lemma {:induction false} CountInvalidUpdate(pages: seq<Page>, i: nat, p: Page)
    requires i < |pages|
    ensures CountInvalid(pages[i := p]) + (if pages[i].state == INVALID then 1 else 0)
         == CountInvalid(pages) + (if p.state == INVALID then 1 else 0)
  {
    var last := |pages| - 1;
    if i == last {
      assert pages[i := p][..last] == pages[..last];
    } else {
      assert pages[i := p][..last] == pages[..last][i := p];
      CountInvalidUpdate(pages[..last], i, p);
    }
  }

  // pages_invalid is 0 when no page is INVALID, and the block size when all are.
  lemma {:induction false} CountInvalidExtremes(pages: seq<Page>)
    ensures CountInvalid(pages) == 0 <==> forall i :: 0 <= i < |pages| ==> pages[i].state != INVALID
    ensures CountInvalid(pages) == |pages| <==> forall i :: 0 <= i < |pages| ==> pages[i].state == INVALID
  {
    if |pages| > 0 {
      var front := pages[..|pages| - 1];
      CountInvalidExtremes(front);
      assert forall i :: 0 <= i < |front| ==> front[i] == pages[i];
    }
  }

  // Programming an EMPTY page, invalidating any page and erasing keep the
  // counters and the block state exact.
  lemma BlockStepsKeepCounters(b: BlockValue, size: nat, page: nat, data: Bytes)
    requires b.WellFormed(size) && page < size
    ensures b.pages[page].state == EMPTY ==> b.Program(page, data).WellFormed(size)
    ensures b.Invalidate(page).WellFormed(size)
    ensures b.Erase().WellFormed(size) && b.Erase().Blank()
  {
    CountInvalidUpdate(b.pages, page, Page(VALID, data));
    CountInvalidUpdate(b.pages, page, Page(INVALID, b.pages[page].data));
    CountInvalidExtremes(b.Erase().pages);
    CountInvalidExtremes(b.pages);
    if b.pages[page].state == EMPTY {
      CountInvalidExtremes(b.pages[page := Page(VALID, data)]);
      assert b.pages[page := Page(VALID, data)][page].state != INVALID;
    }
  }

  // Programming replaces the bytes of its page only; invalidating and erasing
  // keep the bytes of every page. No step but erasing touches another page, and
  // only programming moves the program counter up.
  lemma BlockStepsKeepBytes(b: BlockValue, page: nat, data: Bytes, q: nat)
    requires page < |b.pages| && q < |b.pages|
    ensures |b.Program(page, data).pages| == |b.Invalidate(page).pages| == |b.Erase().pages| == |b.pages|
    ensures b.Program(page, data).pages[q].data == (if q == page then data else b.pages[q].data)
    ensures b.Invalidate(page).pages[q].data == b.Erase().pages[q].data == b.pages[q].data
    ensures q != page ==> b.Program(page, data).pages[q].state == b.Invalidate(page).pages[q].state == b.pages[q].state
    ensures b.Program(page, data).pages[page].state == VALID && b.Invalidate(page).pages[page].state == INVALID
    ensures b.Erase().pages[q].state == EMPTY && b.Erase().valid == b.Erase().invalid == 0
    ensures b.Program(page, data).valid == b.valid + 1 && b.Invalidate(page).valid == b.valid
  {}

  lemma WellFormedExtremes(b: BlockValue, size: nat)
    requires b.WellFormed(size)
    ensures b.invalid == 0 <==> forall i :: 0 <= i < size ==> b.pages[i].state != INVALID
    ensures b.state == INACTIVE <==> forall i :: 0 <= i < size ==> b.pages[i].state == INVALID
  {
    CountInvalidExtremes(b.pages);
  }

  // page_data is mapped zero-filled; nothing below depends on these bytes.
  const Unwritten: Bytes := []

  function FreshBlock(size: nat): (b: BlockValue)
    ensures b.Blank()
  {
    BlockValue(seq(size, _ => Page(EMPTY, Unwritten)), 0, 0, FREE)
  }

  // The blocks after a WRITE event: the page is programmed, then the replaced
  // page, if the event names one, is invalidated.
  ghost function AfterWrite(blocks: seq<BlockValue>, at: PageAddr, bytes: Bytes,
                            replaced: Option<PageAddr>): seq<BlockValue>
    requires at.block < |blocks| && at.page < |blocks[at.block].pages|
    requires replaced.Some? ==>
        replaced.value.block < |blocks| && replaced.value.page < |blocks[replaced.value.block].pages|
  {
    var written := blocks[at.block := blocks[at.block].Program(at.page, bytes)];
    if replaced.None? then written
    else written[replaced.value.block := written[replaced.value.block].Invalidate(replaced.value.page)]
  }

  class Block {
    const size: nat
    const physicalAddress: nat
    const data: array<Page>
    var pagesValid: nat
    var pagesInvalid: nat
    var state: BlockState

    ghost function Value(): BlockValue
      reads this, data
    {
      BlockValue(data[..], pagesValid, pagesInvalid, state)
    }

    ghost predicate Valid()
      reads this, data
    {
      data.Length == size && Value().WellFormed(size)
    }

    constructor (size: nat, physicalAddress: nat)
      requires size > 0
      ensures this.size == size && this.physicalAddress == physicalAddress
      ensures Valid() && Value() == FreshBlock(size) && fresh(data)
    {
      this.size := size;
      this.physicalAddress := physicalAddress;
      this.data := new Page[size](_ => Page(EMPTY, Unwritten));
      pagesValid, pagesInvalid := 0, 0;
      state := FREE;
      new;
      CountInvalidExtremes(data[..]);
      assert data[..] == FreshBlock(size).pages;
    }

    method Read(page: nat) returns (bytes: Bytes)
      requires Valid() && page < size
      ensures bytes == Value().pages[page].data
    {
      bytes := data[page].data;
    }

    // The source asserts that a programmed page is EMPTY.
    method Write(page: nat, bytes: Bytes)
      requires Valid() && page < size && Value().pages[page].state == EMPTY
      modifies this, data
      ensures Valid() && Value() == old(Value()).Program(page, bytes)
    {
      BlockStepsKeepCounters(Value(), size, page, bytes);
      data[page] := Page(VALID, bytes);
      pagesValid := pagesValid + 1;
      state := ACTIVE;
      assert data[..] == old(data[..])[page := Page(VALID, bytes)];
    }

    method InvalidatePage(page: nat)
      requires Valid() && page < size
      modifies this, data
      ensures Valid() && Value() == old(Value()).Invalidate(page)
    {
      BlockStepsKeepCounters(Value(), size, page, Unwritten);
      if data[page].state == INVALID {
        return;
      }
      data[page] := Page(INVALID, data[page].data);
      pagesInvalid := pagesInvalid + 1;
      // The source's third case, FREE, needs pages_invalid == 0 and is never reached.
      state := if pagesInvalid >= size then INACTIVE else ACTIVE;
      assert data[..] == old(data[..])[page := Page(INVALID, old(data[page].data))];
    }

    method Erase()
      requires Valid()
      modifies this, data
      ensures Valid() && Value() == old(Value()).Erase()
    {
      BlockStepsKeepCounters(Value(), size, 0, Unwritten);
      var i := 0;
      while i < size
        invariant i <= size
        invariant forall k :: 0 <= k < i ==> data[k] == Page(EMPTY, old(data[k].data))
        invariant forall k :: i <= k < size ==> data[k] == old(data[k])
      {
        data[i] := Page(EMPTY, data[i].data);
        i := i + 1;
      }
      pagesValid, pagesInvalid := 0, 0;
      state := FREE;
      assert data[..] == old(Value()).Erase().pages;
    }
  }

  // Blocks in address order, pairwise distinct, none sharing its page array.
  ghost predicate BlockRow(blocks: seq<Block>, size: nat, base: nat) {
    && (forall k :: 0 <= k < |blocks| ==> blocks[k].size == size && blocks[k].physicalAddress == base + k * size)
    && Apart(blocks)
  }

  ghost predicate Apart(blocks: seq<Block>) {
    forall j, k :: 0 <= j < k < |blocks| ==> blocks[j] != blocks[k] && blocks[j].data != blocks[k].data
  }

  ghost predicate BlankBlock(b: Block)
    reads b, b.data
  {
    b.Valid() && b.Value() == FreshBlock(b.size)
  }

  class Plane {
    const blocks: seq<Block>

    constructor (g: Geometry, base: nat)
      requires g.Positive()
      ensures |blocks| == g.planeSize && BlockRow(blocks, g.blockSize, base)
      ensures forall k :: 0 <= k < |blocks| ==> fresh(blocks[k]) && fresh(blocks[k].data) && BlankBlock(blocks[k])
    {
      var row: seq<Block> := [];
      for i := 0 to g.planeSize
        invariant |row| == i && BlockRow(row, g.blockSize, base)
        invariant forall k :: 0 <= k < |row| ==> fresh(row[k]) && fresh(row[k].data) && BlankBlock(row[k])
      {
        var b := new Block(g.blockSize, base + i * g.blockSize);
        row := row + [b];
      }
      blocks := row;
    }
  }
}
