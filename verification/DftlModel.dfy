// What DFTL keeps true of the flash, its page map and its reverse map, and the
// steps that change them (FTLs/dftl_ftl.cpp, FTLs/dftl_parent.cpp). The cached
// mapping table is in DftlCache.
module DftlModel {
  import Arithmetic
  import opened Flash
  import opened BlockManagement
  import opened DftlCache
  import opened FiniteSets

  // BLOCK_SIZE, NUMBER_OF_ADDRESSABLE_BLOCKS and the number of logical pages.
  datatype Config = Config(size: nat, blocks: nat, logical: nat)

  // `ppn` is the physical page of each logical page; `owner` names the logical
  // page of each physical page that was ever mapped; `at` is currentDataPage.
  datatype State = State(
    blocks: seq<BlockValue>,
    ppn: seq<Option<PageAddr>>,
    owner: map<PageAddr, nat>,
    at: Option<PageAddr>,
    free: seq<nat>,
    next: nat)

  ghost predicate Shape(c: Config, s: State) {
    && c.size > 0 && |s.blocks| == c.blocks && |s.ppn| == c.logical && s.next <= c.blocks
    && (forall b :: 0 <= b < |s.blocks| ==> |s.blocks[b].pages| == c.size)
    && (s.at.Some? ==> s.at.value.block < s.next && s.at.value.page < c.size)
  }

  ghost predicate IsPage(c: Config, a: PageAddr) {
    a.block < c.blocks && a.page < c.size
  }

  ghost function StateOf(c: Config, s: State, a: PageAddr): PageState
    requires Shape(c, s) && IsPage(c, a)
  {
    s.blocks[a.block].pages[a.page].state
  }

  // Forward and reverse maps are inverse on exactly the VALID pages.
  ghost predicate Inverse(c: Config, s: State)
    requires Shape(c, s)
  {
    && (forall v :: 0 <= v < c.logical && s.ppn[v].Some? ==>
        var a := s.ppn[v].value;
        IsPage(c, a) && StateOf(c, s, a) == VALID && a in s.owner && s.owner[a] == v)
    && (forall a :: IsPage(c, a) && StateOf(c, s, a) == VALID ==>
        a in s.owner && s.owner[a] < c.logical && s.ppn[s.owner[a]] == Some(a))
  }

  ghost predicate FreeOk(free: seq<nat>, next: nat) {
    && (forall b :: b in free ==> b < next)
    && (forall i, j :: 0 <= i < j < |free| ==> free[i] != free[j])
  }

  ghost predicate InUse(s: State, b: nat) {
    b < s.next && b !in s.free
  }

  // The first `used` pages programmed, the rest EMPTY.
  ghost predicate FilledTo(block: BlockValue, used: nat) {
    && block.valid == used <= |block.pages|
    && (forall p :: 0 <= p < used ==> block.pages[p].state != EMPTY)
    && (forall p :: used <= p < |block.pages| ==> block.pages[p].state == EMPTY)
  }

  // Blocks in use are full, except the one being written, which is filled up to
  // the current page; `pending` when that page is chosen but not yet written.
  ghost predicate Filled(c: Config, s: State, pending: bool)
    requires Shape(c, s)
  {
    && (s.at.Some? ==> InUse(s, s.at.value.block)
                       && FilledTo(s.blocks[s.at.value.block],
                         if pending then s.at.value.page else s.at.value.page + 1))
    && (s.at.None? ==> s.next == 0 && !pending)
    && (forall b :: 0 <= b < c.blocks && InUse(s, b) && (s.at.Some? ==> b != s.at.value.block) ==>
      FilledTo(s.blocks[b], c.size))
  }

  ghost predicate Blanks(c: Config, s: State)
    requires Shape(c, s)
  {
    forall b :: 0 <= b < c.blocks && !InUse(s, b) ==> s.blocks[b].Blank()
  }

  ghost predicate Inv(c: Config, s: State, pending: bool) {
    Shape(c, s) && Inverse(c, s) && FreeOk(s.free, s.next) && Filled(c, s, pending) && Blanks(c, s)
  }

  // What the host reads at each logical page.
  ghost predicate Represents(c: Config, s: State, contents: map<nat, Bytes>)
    requires Shape(c, s)
  {
    && (forall v: nat :: v in contents <==> v < |s.ppn| && s.ppn[v].Some?)
    && (forall v :: v in contents ==> (IsPage(c, s.ppn[v].value) && BytesAt(c, s, s.ppn[v].value) == contents[v]))
  }

  ghost function BytesAt(c: Config, s: State, a: PageAddr): Bytes
    requires Shape(c, s) && IsPage(c, a)
  {
    s.blocks[a.block].pages[a.page].data
  }

  // Blocks that can still be handed out, and pages left in the current block.
  ghost function FreeBlocks(c: Config, s: State): int { c.blocks - s.next + |s.free| }

  ghost function Room(c: Config, s: State): int {
    if s.at.None? then 0 else c.size - 1 - s.at.value.page
  }

  // ---------- choosing a page ----------

  ghost predicate TookBlock(c: Config, s: State, b: nat, s': State) {
    && Took(s.next, s.free, b, s'.next, s'.free, c.blocks)
    && s' == s.(next := s'.next, free := s'.free, at := Some(PageAddr(b, 0)))
  }

  // A new block is blank, and its page 0 becomes the current page.
  lemma TakeBlock(c: Config, s: State, b: nat, s': State)
    requires Inv(c, s, false) && Room(c, s) == 0 && TookBlock(c, s, b, s')
    ensures b < c.blocks && Inv(c, s', true) && FreeBlocks(c, s') == FreeBlocks(c, s) - 1
    ensures StateOf(c, s', PageAddr(b, 0)) == EMPTY
    ensures !InUse(s, b) && forall x :: x != b ==> (InUse(s', x) <==> InUse(s, x))
  {
    TakenFromFree(s.next, s.free, b, s'.next, s'.free, c.blocks);
  }

  lemma TakenFromFree(next: nat, free: seq<nat>, b: nat, next': nat, free': seq<nat>, max: nat)
    requires FreeOk(free, next) && next <= max && Took(next, free, b, next', free', max)
    ensures FreeOk(free', next') && next' <= max && b < next' && b !in free'
    ensures b < next ==> b in free
    ensures forall x :: x != b ==> (x < next' && x !in free' <==> x < next && x !in free)
    ensures |free'| - next' == |free| - next - 1
  {
    if next >= max {
      assert free == [free[0]] + free';
      assert free[0] in free;
      assert forall i :: 0 <= i < |free'| ==> free'[i] == free[i + 1];
      assert forall x :: x in free <==> x == free[0] || x in free';
    }
  }

  lemma TakeNextPage(c: Config, s: State)
    requires Inv(c, s, false) && s.at.Some? && Room(c, s) > 0
    ensures var s' := s.(at := Some(PageAddr(s.at.value.block, s.at.value.page + 1)));
            && Inv(c, s', true) && FreeBlocks(c, s') == FreeBlocks(c, s)
            && IsPage(c, s'.at.value) && StateOf(c, s', s'.at.value) == EMPTY
  {}

  // ---------- writing it ----------

  // Logical page v moves to the current page, which gets `bytes`; the page that
  // held v, if any, is invalidated.
  ghost function WriteAt(c: Config, s: State, v: nat, bytes: Bytes): State
    requires Shape(c, s) && v < c.logical && s.at.Some?
    requires s.ppn[v].Some? ==> IsPage(c, s.ppn[v].value)
  {
    s.(blocks := AfterWrite(s.blocks, s.at.value, bytes, s.ppn[v]),
       ppn := s.ppn[v := s.at], owner := s.owner[s.at.value := v])
  }

  lemma WriteStep(c: Config, s: State, v: nat, bytes: Bytes, contents: map<nat, Bytes>)
    requires Inv(c, s, true) && v < c.logical && s.at.Some? && Represents(c, s, contents)
    ensures s.ppn[v].Some? ==> IsPage(c, s.ppn[v].value)
    ensures var s' := WriteAt(c, s, v, bytes);
            Inv(c, s', false) && Represents(c, s', contents[v := bytes])
  {
    hide FreeOk, FilledTo, BlockValue.Blank;
    WriteShape(c, s, v, bytes);
    WriteInverse(c, s, v, bytes);
    WriteFilled(c, s, v, bytes);
    WriteRepresents(c, s, v, bytes, contents);
  }

  lemma WriteShape(c: Config, s: State, v: nat, bytes: Bytes)
    requires Shape(c, s) && Inverse(c, s) && Filled(c, s, true) && v < c.logical && s.at.Some?
    ensures s.ppn[v].Some? ==> IsPage(c, s.ppn[v].value) && s.ppn[v] != s.at
    ensures Shape(c, WriteAt(c, s, v, bytes))
  {}

  lemma WriteInverse(c: Config, s: State, v: nat, bytes: Bytes)
    requires Shape(c, s) && Inverse(c, s) && Filled(c, s, true) && v < c.logical && s.at.Some?
    requires s.ppn[v].Some? ==> IsPage(c, s.ppn[v].value)
    ensures var s' := WriteAt(c, s, v, bytes); Shape(c, s') && Inverse(c, s')
  {
    WriteShape(c, s, v, bytes);
    assert StateOf(c, s, s.at.value) == EMPTY;
    WriteStates(c, s, v, bytes);
    hide Filled, AfterWrite, StateOf;
  }

  lemma WriteStates(c: Config, s: State, v: nat, bytes: Bytes)
    requires Shape(c, s) && v < c.logical && s.at.Some? && IsPage(c, s.at.value) && s.ppn[v] != s.at
    requires s.ppn[v].Some? ==> IsPage(c, s.ppn[v].value)
    requires Shape(c, WriteAt(c, s, v, bytes))
    ensures forall a :: IsPage(c, a) ==>
              StateOf(c, WriteAt(c, s, v, bytes), a)
              == if Some(a) == s.at then VALID else if Some(a) == s.ppn[v] then INVALID else StateOf(c, s, a)
  {}

  lemma WriteFilled(c: Config, s: State, v: nat, bytes: Bytes)
    requires Shape(c, s) && Inverse(c, s) && Filled(c, s, true) && Blanks(c, s) && v < c.logical && s.at.Some?
    requires s.ppn[v].Some? ==> IsPage(c, s.ppn[v].value)
    ensures var s' := WriteAt(c, s, v, bytes); Shape(c, s') && Filled(c, s', false) && Blanks(c, s')
  {
    WriteShape(c, s, v, bytes);
  }

  lemma WriteRepresents(c: Config, s: State, v: nat, bytes: Bytes, contents: map<nat, Bytes>)
    requires Shape(c, s) && Inverse(c, s) && Filled(c, s, true) && v < c.logical && s.at.Some? &&
        Represents(c, s, contents)
    requires s.ppn[v].Some? ==> IsPage(c, s.ppn[v].value)
    ensures var s' := WriteAt(c, s, v, bytes); Shape(c, s') && Represents(c, s', contents[v := bytes])
  {
    WriteShape(c, s, v, bytes);
    var s' := WriteAt(c, s, v, bytes);
    assert StateOf(c, s, s.at.value) == EMPTY;
    forall k | k in contents && k != v
      ensures IsPage(c, s'.ppn[k].value) && BytesAt(c, s', s'.ppn[k].value) == contents[k]
    {
      assert s.ppn[k].value != s.at.value;
      assert s.ppn[v].Some? ==> s.ppn[v].value != s.ppn[k].value;
    }
  }

  // ---------- cleaning ----------

  // Moving the live page at `a` changes nothing the host can read.
  lemma MoveKeepsContents(c: Config, s: State, a: PageAddr, contents: map<nat, Bytes>)
    requires Inv(c, s, false) && Represents(c, s, contents) && IsPage(c, a) && StateOf(c, s, a) == VALID
    ensures a in s.owner && s.owner[a] < c.logical && s.ppn[s.owner[a]] == Some(a)
    ensures contents[s.owner[a] := BytesAt(c, s, a)] == contents
  {}

  ghost predicate NoneValid(block: BlockValue) {
    forall p :: 0 <= p < |block.pages| ==> block.pages[p].state != VALID
  }

  // A full block with no VALID page is erased and freed.
  lemma EraseStep(c: Config, s: State, b: nat, contents: map<nat, Bytes>)
    requires Inv(c, s, false) && Represents(c, s, contents)
    requires b < c.blocks && InUse(s, b) && s.at.Some? && b != s.at.value.block && NoneValid(s.blocks[b])
    ensures var s' := s.(blocks := s.blocks[b := s.blocks[b].Erase()], free := s.free + [b]);
            && Inv(c, s', false) && Represents(c, s', contents)
            && FreeBlocks(c, s') == FreeBlocks(c, s) + 1 && Room(c, s') == Room(c, s)
  {
    hide Inverse, Filled, Blanks, FreeOk, BlockValue.Blank, Represents;
    var s' := s.(blocks := s.blocks[b := s.blocks[b].Erase()], free := s.free + [b]);
    FreedOk(s.free, s.next, b);
    ErasedInverse(c, s, b, s', contents);
    ErasedFilled(c, s, b, s');
  }

  lemma ErasedInverse(c: Config, s: State, b: nat, s': State, contents: map<nat, Bytes>)
    requires Shape(c, s) && Inverse(c, s) && Represents(c, s, contents) && b < c.blocks && NoneValid(s.blocks[b])
    requires s' == s.(blocks := s.blocks[b := s.blocks[b].Erase()], free := s'.free)
    ensures Shape(c, s') && Inverse(c, s') && Represents(c, s', contents)
  {
    assert forall v :: 0 <= v < c.logical && s.ppn[v].Some? ==> s.ppn[v].value.block != b;
  }

  lemma ErasedFilled(c: Config, s: State, b: nat, s': State)
    requires Shape(c, s) && Shape(c, s') && Filled(c, s, false) && Blanks(c, s)
    requires b < c.blocks && s.at.Some? && b != s.at.value.block
    requires s' == s.(blocks := s.blocks[b := s.blocks[b].Erase()], free := s.free + [b])
    ensures Filled(c, s', false) && Blanks(c, s')
  {
    assert forall x :: x != b ==> (InUse(s', x) <==> InUse(s, x));
    assert s'.blocks[b].Blank();
  }

  lemma FreedOk(free: seq<nat>, next: nat, b: nat)
    requires FreeOk(free, next) && b < next && b !in free
    ensures FreeOk(free + [b], next)
  {
    assert forall x :: x in free + [b] <==> x in free || x == b;
  }

  // ---------- trim ----------

  ghost function Trimmed(c: Config, s: State, v: nat): State
    requires Shape(c, s) && v < c.logical && s.ppn[v].Some? && IsPage(c, s.ppn[v].value)
  {
    var a := s.ppn[v].value;
    s.(blocks := s.blocks[a.block := s.blocks[a.block].Invalidate(a.page)], ppn := s.ppn[v := None])
  }

  lemma TrimStep(c: Config, s: State, v: nat, contents: map<nat, Bytes>)
    requires Inv(c, s, false) && v < c.logical && s.ppn[v].Some? && Represents(c, s, contents)
    ensures IsPage(c, s.ppn[v].value)
    ensures Inv(c, Trimmed(c, s, v), false) && Represents(c, Trimmed(c, s, v), contents - {v})
  {
    hide FreeOk, BlockValue.Blank, Filled, Blanks, Inverse, Represents;
    TrimInverse(c, s, v);
    assert StateOf(c, s, s.ppn[v].value) == VALID by { MappedIsValid(c, s, v); }
    TrimFilled(c, s, v);
    TrimRepresents(c, s, v, contents);
  }

  lemma MappedIsValid(c: Config, s: State, v: nat)
    requires Shape(c, s) && Inverse(c, s) && v < c.logical && s.ppn[v].Some?
    ensures IsPage(c, s.ppn[v].value) && StateOf(c, s, s.ppn[v].value) == VALID
  {}

  lemma TrimInverse(c: Config, s: State, v: nat)
    requires Shape(c, s) && Inverse(c, s) && v < c.logical && s.ppn[v].Some?
    ensures IsPage(c, s.ppn[v].value) && Shape(c, Trimmed(c, s, v)) && Inverse(c, Trimmed(c, s, v))
  {}

  lemma TrimFilled(c: Config, s: State, v: nat)
    requires Shape(c, s) && Filled(c, s, false) && Blanks(c, s) && v < c.logical && s.ppn[v].Some? &&
        IsPage(c, s.ppn[v].value)
    requires StateOf(c, s, s.ppn[v].value) == VALID && Shape(c, Trimmed(c, s, v))
    ensures Filled(c, Trimmed(c, s, v), false) && Blanks(c, Trimmed(c, s, v))
  {}

  lemma TrimRepresents(c: Config, s: State, v: nat, contents: map<nat, Bytes>)
    requires Shape(c, s) && v < c.logical && s.ppn[v].Some? && IsPage(c, s.ppn[v].value) && Represents(c, s, contents)
    requires Shape(c, Trimmed(c, s, v))
    ensures Represents(c, Trimmed(c, s, v), contents - {v})
  {
    var s' := Trimmed(c, s, v);
    forall k | k in contents && k != v
      ensures IsPage(c, s'.ppn[k].value) && BytesAt(c, s', s'.ppn[k].value) == contents[k]
    {}
  }

  // ---------- how much is live ----------

  ghost function Live(s: State): set<nat> {
    set v | 0 <= v < |s.ppn| && s.ppn[v].Some?
  }

  ghost function PagesOf(blocks: set<nat>, size: nat): set<PageAddr> {
    set b, p | b in blocks && 0 <= p < size :: PageAddr(b, p)
  }

  lemma {:induction false} CountPages(blocks: set<nat>, size: nat)
    ensures |PagesOf(blocks, size)| == |blocks| * size
  {
    if blocks != {} {
      var b :| b in blocks;
      var rest := blocks - {b};
      CountPages(rest, size);
      CountPagesOfOne(b, size);
      SplitPages(blocks, b, size);
      assert |blocks| == |rest| + 1;
      assert (|rest| + 1) * size == |rest| * size + size;
      hide PagesOf;
    } else {
      assert PagesOf(blocks, size) == {};
    }
  }

  lemma SplitPages(blocks: set<nat>, b: nat, size: nat)
    requires b in blocks
    ensures |PagesOf(blocks, size)| == |PagesOf(blocks - {b}, size)| + |PagesOf({b}, size)|
  {
    var rest, one := PagesOf(blocks - {b}, size), PagesOf({b}, size);
    assert PagesOf(blocks, size) == rest + one;
    assert rest !! one;
  }

  lemma {:induction false} CountPagesOfOne(b: nat, size: nat)
    ensures |PagesOf({b}, size)| == size
  {
    if size == 0 {
      assert PagesOf({b}, size) == {};
    } else {
      CountPagesOfOne(b, size - 1);
      assert PagesOf({b}, size) == PagesOf({b}, size - 1) + {PageAddr(b, size - 1)};
    }
  }

  ghost function Written(s: State): set<nat> {
    set b | 0 <= b < s.next && b !in s.free
  }

  lemma CountWritten(s: State)
    requires FreeOk(s.free, s.next)
    ensures |Written(s)| == s.next - |s.free|
  {
    CountMembers(s.free);
    assert Below(s.next) == Written(s) + Members(s.free);
    assert Written(s) !! Members(s.free);
    hide Written, Members, FreeOk;
  }

  // When only the current block has INVALID pages, every page of every other
  // block in use is live.
  lemma FullBlocksAreLive(c: Config, s: State)
    requires Inv(c, s, false) && s.at.Some?
    requires forall b :: 0 <= b < c.blocks && b != s.at.value.block ==> NoneInvalid(s.blocks[b])
    ensures (c.blocks - FreeBlocks(c, s) - 1) * c.size <= |Live(s)|
  {
    var full := Written(s) - {s.at.value.block};
    CountWritten(s);
    assert |full| == c.blocks - FreeBlocks(c, s) - 1;
    CountPages(full, c.size);
    forall a | a in PagesOf(full, c.size)
      ensures a in s.owner && s.owner[a] in Live(s) && s.ppn[s.owner[a]] == Some(a)
    {
      assert InUse(s, a.block) && FilledTo(s.blocks[a.block], c.size);
      assert StateOf(c, s, a) == VALID;
    }
    InjectionSize(PagesOf(full, c.size), Live(s), s.owner);
  }

  lemma ShapeOf(c: Config, s: State, pending: bool)
    requires Inv(c, s, pending)
    ensures Shape(c, s)
  {}

  lemma RepresentsFrame(c: Config, s: State, s': State, contents: map<nat, Bytes>)
    requires Shape(c, s) && Shape(c, s') && Represents(c, s, contents)
    requires s'.blocks == s.blocks && s'.ppn == s.ppn
    ensures Represents(c, s', contents)
  {}

  // The chosen page can be programmed.
  lemma WriteReady(c: Config, s: State)
    requires Inv(c, s, true) && s.at.Some?
    ensures Shape(c, s) && IsPage(c, s.at.value) && StateOf(c, s, s.at.value) == EMPTY
  {}

  // A block that may be cleaned: in use, and not the one being written.
  ghost predicate Cleanable(c: Config, s: State, b: nat) {
    Shape(c, s) && b < c.blocks && InUse(s, b) && s.at.Some? && b != s.at.value.block
  }

  lemma ReplacedElsewhere(view: seq<BlockValue>, at: PageAddr, bytes: Bytes, replaced: PageAddr)
    requires at.block < |view| && at.page < |view[at.block].pages|
    requires replaced.block < |view| && replaced.page < |view[replaced.block].pages| && replaced.block != at.block
    ensures AfterWrite(view, at, bytes, Some(replaced))[replaced.block] ==
        view[replaced.block].Invalidate(replaced.page)
  {}

  // `moved` lists the logical pages that have left the victim since `start`,
  // with their new places; everything else is mapped as it was.
  ghost predicate Moves(start: State, ppn: seq<Option<PageAddr>>, owner: map<PageAddr, nat>, victim: nat,
                        moved: map<nat, PageAddr>) {
    && |ppn| == |start.ppn|
    && (forall v :: 0 <= v < |ppn| ==> ppn[v] == if v in moved then Some(moved[v]) else start.ppn[v])
    && (forall v :: v in moved ==> v < |ppn| && start.ppn[v].Some? && moved[v].block != victim)
    && (forall a: PageAddr :: a.block == victim && a in owner ==> a in start.owner && owner[a] == start.owner[a])
  }

  lemma MovesMore(start: State, ppn: seq<Option<PageAddr>>, owner: map<PageAddr, nat>, victim: nat,
                  moved: map<nat, PageAddr>, v: nat, to: PageAddr)
    requires Moves(start, ppn, owner, victim, moved) && v < |ppn| && ppn[v].Some? && to.block != victim
    ensures Moves(start, ppn[v := Some(to)], owner[to := v], victim, moved[v := to])
  {}

  // A page still to be visited in a block being cleaned is live under the
  // stored reverse map exactly as under the running one.
  lemma OwnerKnown(c: Config, start: State, s: State, victim: nat, moved: map<nat, PageAddr>, i: nat)
    requires Inv(c, s, false) && Moves(start, s.ppn, s.owner, victim, moved)
    requires victim < c.blocks && i < c.size && StateOf(c, s, PageAddr(victim, i)) == VALID
    ensures var a := PageAddr(victim, i);
            a in s.owner && a in start.owner && start.owner[a] == s.owner[a] < c.logical && s.ppn[s.owner[a]] == Some(a)
  {}

  lemma FullBlock(c: Config, s: State, b: nat)
    requires Inv(c, s, false) && Cleanable(c, s, b)
    ensures forall p :: 0 <= p < c.size ==> s.blocks[b].pages[p].state != EMPTY
  {
    assert FilledTo(s.blocks[b], c.size);
  }

  lemma MovesNothing(start: State, victim: nat)
    ensures Moves(start, start.ppn, start.owner, victim, map[])
  {}

  lemma MovedDistinct(c: Config, start: State, s: State, victim: nat, moved: map<nat, PageAddr>)
    requires Inv(c, s, false) && Moves(start, s.ppn, s.owner, victim, moved)
    ensures forall v :: v in moved ==> v < c.logical
    ensures DistinctTargets(moved)
  {
    forall v, w | v in moved && w in moved && v != w ensures moved[v] != moved[w] {
      assert s.ppn[v] == Some(moved[v]) && s.ppn[w] == Some(moved[w]);
    }
  }

  lemma ForwardKnown(c: Config, s: State)
    requires Inv(c, s, false)
    ensures ForwardOk(s)
  {}

  ghost predicate ForwardOk(s: State) {
    forall v :: 0 <= v < |s.ppn| && s.ppn[v].Some? ==> s.ppn[v].value in s.owner && s.owner[s.ppn[v].value] == v
  }

  // After the batch update the stored maps are the running ones, and inverse.
  lemma MapsRestored(c: Config, start: State, s: State, victim: nat, moved: map<nat, PageAddr>,
                     stored: map<PageAddr, nat>, ppn: seq<Option<PageAddr>>, contents: map<nat, Bytes>)
    requires Inv(c, s, false) && Moves(start, s.ppn, s.owner, victim, moved) && ForwardOk(start) &&
        Represents(c, s, contents)
    requires Remapped(start.ppn, moved, moved.Keys, ppn) && Rehomed(start.owner, moved, moved.Keys, stored)
    ensures ppn == s.ppn && Inv(c, s.(owner := stored), false) && Represents(c, s.(owner := stored), contents)
  {
    hide Filled, Blanks, FreeOk;
    assert ppn == s.ppn;
    MovedDistinct(c, start, s, victim, moved);
    var s' := s.(owner := stored);
    forall v | 0 <= v < c.logical && s.ppn[v].Some?
      ensures s.ppn[v].value in stored && stored[s.ppn[v].value] == v
    {
      if v !in moved {
        assert s.ppn[v] == start.ppn[v];
        forall w | w in moved ensures moved[w] != s.ppn[v].value {
          assert s.ppn[w] == Some(moved[w]);
        }
      }
    }
    InverseFrom(c, s, s');
    SameBlocks(c, s, s', contents);
  }

  lemma InverseFrom(c: Config, s: State, s': State)
    requires Shape(c, s) && Inverse(c, s) && s' == s.(owner := s'.owner)
    requires forall v :: 0 <= v < c.logical && s.ppn[v].Some? ==>
        s.ppn[v].value in s'.owner && s'.owner[s.ppn[v].value] == v
    ensures Inverse(c, s')
  {
    forall a | IsPage(c, a) && StateOf(c, s, a) == VALID
      ensures a in s'.owner && s'.owner[a] < c.logical && s'.ppn[s'.owner[a]] == Some(a)
    {
      assert s.ppn[s.owner[a]] == Some(a);
    }
  }

  lemma SameBlocks(c: Config, s: State, s': State, contents: map<nat, Bytes>)
    requires Shape(c, s) && Filled(c, s, false) && Blanks(c, s) && FreeOk(s.free, s.next) && Represents(c, s, contents)
    requires s' == s.(owner := s'.owner)
    ensures Shape(c, s') && Filled(c, s', false) && Blanks(c, s') && FreeOk(s'.free, s'.next) &&
        Represents(c, s', contents)
  {}

  lemma MovesLength(start: State, ppn: seq<Option<PageAddr>>, owner: map<PageAddr, nat>, victim: nat,
                    moved: map<nat, PageAddr>)
    requires Moves(start, ppn, owner, victim, moved)
    ensures |ppn| == |start.ppn| && forall v :: v in moved ==> v < |start.ppn| && start.ppn[v].Some?
  {}

  // A block with an INVALID page is in use, and full unless it is the one
  // being written and that one has room left.
  lemma InvalidInUse(c: Config, s: State, b: nat)
    requires Inv(c, s, false) && b < c.blocks && s.blocks[b].invalid > 0
    ensures s.at.Some? && InUse(s, b)
    ensures b != s.at.value.block || Room(c, s) == 0 ==> s.blocks[b].valid == c.size
  {
    assert InUse(s, b);
    if b != s.at.value.block {
      assert FilledTo(s.blocks[b], c.size);
    }
  }

  // At a full block, fewer live pages than all but three blocks hold mean that
  // three blocks are free or some other block has an INVALID page.
  lemma ThirdFreeBlock(c: Config, s: State, contents: map<nat, Bytes>)
    requires Inv(c, s, false) && Represents(c, s, contents) && s.at.Some?
    requires forall b :: 0 <= b < c.blocks && b != s.at.value.block ==> NoneInvalid(s.blocks[b])
    requires |contents| < (c.blocks - 3) * c.size
    ensures FreeBlocks(c, s) >= 3
  {
    hide Inverse, Filled, Blanks, FreeOk, BytesAt;
    FullBlocksAreLive(c, s);
    assert Live(s) == contents.Keys;
    if FreeBlocks(c, s) <= 2 {
      Arithmetic.MulMonotone(c.blocks - 3, c.blocks - FreeBlocks(c, s) - 1, c.size);
    }
  }

  ghost predicate NoneInvalid(block: BlockValue) {
    forall p :: 0 <= p < |block.pages| ==> block.pages[p].state != INVALID
  }

  lemma PpnsAt(table: seq<MPage>, v: nat)
    requires v < |table|
    ensures |Ppns(table)| == |table| && Ppns(table)[v] == table[v].ppn
  {}

  lemma MappedIsPage(c: Config, s: State, v: nat)
    requires Inv(c, s, true) && v < c.logical
    ensures |s.ppn| == c.logical && (s.ppn[v].Some? ==> IsPage(c, s.ppn[v].value))
  {}

  lemma MappedContent(c: Config, s: State, v: nat, contents: map<nat, Bytes>)
    requires Inv(c, s, false) && Represents(c, s, contents) && v < c.logical
    ensures v in contents <==> s.ppn[v].Some?
    ensures s.ppn[v].Some? ==> IsPage(c, s.ppn[v].value) && BytesAt(c, s, s.ppn[v].value) == contents[v]
  {}
}
