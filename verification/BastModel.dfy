// What the BAST translation layer keeps true, on the value of its state, and
// the steps its methods take (bast_ftl.cpp).
module BastModel {
  import opened Flash
  import opened BlockManagement
  import opened FiniteSets

  // BLOCK_SIZE, NUMBER_OF_ADDRESSABLE_BLOCKS, 1 << addressShift and BAST_LOG_BLOCK_LIMIT.
  // addressShift is log2 of the block size rounded down.
  datatype Config = Config(size: nat, blocks: nat, span: nat, limit: nat) {
    predicate Ok() { 0 < span <= size && blocks > 0 && limit > 0 }
  }

  datatype LogPageBlock = LogPageBlock(address: nat, pages: seq<int>)

  datatype State = State(
    blocks: seq<BlockValue>,
    log: map<nat, LogPageBlock>,
    data: seq<int>,
    free: seq<nat>,
    next: nat,
    dataActive: int,
    logActive: int)

  // Who holds a block. A loose block has been handed out for a merge that is
  // still copying into it.
  datatype Owner = Fresh | Free | Log(lba: nat) | Data(lba: nat) | Loose

  ghost predicate Shape(c: Config, s: State) {
    && c.Ok() && |s.blocks| == c.blocks && |s.data| == c.blocks && s.next <= c.blocks
    && forall b :: 0 <= b < |s.blocks| ==> |s.blocks[b].pages| == c.size
  }

  ghost predicate NoRepeats(free: seq<nat>) {
    forall i, j :: 0 <= i < j < |free| ==> free[i] != free[j]
  }

  // Untouched blocks and freed blocks.
  ghost predicate FreeHeld(own: seq<Owner>, free: seq<nat>, next: nat) {
    && (forall b :: 0 <= b < |own| ==> (own[b] == Fresh <==> next <= b))
    && (forall b :: 0 <= b < |own| ==> (own[b] == Free <==> b in free))
    && (forall b :: b in free ==> b < |own|)
    && NoRepeats(free)
  }

  ghost predicate LogHeld(own: seq<Owner>, log: map<nat, LogPageBlock>) {
    && (forall l :: l in log ==> l < |own| && log[l].address < |own| && own[log[l].address] == Log(l))
    && (forall b :: 0 <= b < |own| && own[b].Log? ==> own[b].lba in log && log[own[b].lba].address == b)
  }

  ghost predicate DataHeld(own: seq<Owner>, data: seq<int>) {
    && (forall l :: 0 <= l < |data| && data[l] != -1 ==> 0 <= data[l] < |own| && own[data[l]] == Data(l))
    && (forall b :: 0 <= b < |own| && own[b].Data? ==> own[b].lba < |data| && data[own[b].lba] == b)
  }

  // The blocks handed out so far are exactly the data blocks, the log blocks,
  // the free list and the loose block, each held once.
  ghost predicate Partition(c: Config, s: State, own: seq<Owner>) {
    |own| == c.blocks && FreeHeld(own, s.free, s.next) && LogHeld(own, s.log) && DataHeld(own, s.data)
  }

  // Pages of a log block are appended in order, and the page map names
  // distinct VALID pages. A page the log holds is not VALID in the data block.
  ghost predicate LogOk(c: Config, s: State, l: nat)
    requires Shape(c, s) && l in s.log && s.log[l].address < c.blocks
  {
    var lb := s.log[l];
    var block := s.blocks[lb.address];
    && l < c.blocks && |lb.pages| == c.size && block.valid <= c.size
    && (forall p :: block.valid <= p < c.size ==> block.pages[p].state == EMPTY)
    && (forall o :: 0 <= o < c.size && lb.pages[o] != -1 ==>
        0 <= lb.pages[o] < block.valid && block.pages[lb.pages[o]].state == VALID)
    && (forall o, o' :: 0 <= o < o' < c.size && lb.pages[o] != -1 ==> lb.pages[o] != lb.pages[o'])
    && (0 <= s.data[l] < c.blocks ==> forall o :: 0 <= o < c.size && lb.pages[o] != -1 ==>
      s.blocks[s.data[l]].pages[o].state != VALID)
  }

  ghost function Mapped(data: seq<int>): set<nat> {
    set l | 0 <= l < |data| && data[l] != -1
  }

  // Logical blocks with a data block or a log block.
  ghost function InUse(s: State): set<nat> {
    Mapped(s.data) + s.log.Keys
  }

  ghost predicate Counters(c: Config, s: State, loose: nat) {
    && s.next == s.dataActive + s.logActive + |s.free|
    && s.logActive == |s.log| <= c.limit
    && s.dataActive == |Mapped(s.data)| + loose
  }

  ghost predicate Inv(c: Config, s: State, own: seq<Owner>, loose: nat) {
    Shape(c, s) && Partition(c, s, own) && Counters(c, s, loose) && Blanks(s.blocks, own) && LogsOk(c, s)
  }

  ghost predicate Blanks(blocks: seq<BlockValue>, own: seq<Owner>) {
    forall b :: 0 <= b < |own| && b < |blocks| && (own[b] == Fresh || own[b] == Free) ==> blocks[b].Blank()
  }

  ghost predicate LogsOk(c: Config, s: State)
    requires Shape(c, s)
  {
    forall l :: l in s.log ==> s.log[l].address < c.blocks && LogOk(c, s, l)
  }

  // The current bytes of page `o` of logical block `l`.
  ghost function Live(c: Config, s: State, l: nat, o: nat): Option<Bytes>
    requires Shape(c, s) && l < c.blocks && o < c.size
  {
    if l in s.log && o < |s.log[l].pages| && s.log[l].pages[o] != -1 then
      var a, p := s.log[l].address, s.log[l].pages[o];
      if a < c.blocks && 0 <= p < c.size then Some(s.blocks[a].pages[p].data) else None
    else if 0 <= s.data[l] < c.blocks && s.blocks[s.data[l]].pages[o].state == VALID then
      Some(s.blocks[s.data[l]].pages[o].data)
    else None
  }

  ghost predicate SameContents(c: Config, s: State, s': State)
    requires Shape(c, s) && Shape(c, s')
  {
    forall l, o :: 0 <= l < c.blocks && 0 <= o < c.size ==> Live(c, s', l, o) == Live(c, s, l, o)
  }

  // A drive on which nothing has been written.
  lemma StartsEmpty(c: Config, s: State)
    requires Shape(c, s) && s.next == 0 && s.dataActive == 0 && s.logActive == 0 && s.log == map[] && s.free == []
    requires forall l :: 0 <= l < c.blocks ==> s.data[l] == -1 && s.blocks[l].Blank()
    ensures Inv(c, s, seq(c.blocks, _ => Fresh), 0) && InUse(s) == {}
    ensures forall l, o :: 0 <= l < c.blocks && 0 <= o < c.size ==> Live(c, s, l, o) == None
  {
    assert Mapped(s.data) == {};
  }

  // ---------- allocation ----------

  // With room for one block per logical block in use and every log block, and
  // one block over, allocation never finds both sources of blocks empty.
  lemma BlockAvailable(c: Config, s: State, own: seq<Owner>)
    requires Inv(c, s, own, 0)
    requires |Mapped(s.data)| + |s.log| < c.blocks
    ensures s.next < c.blocks || s.free != []
  {}

  // Room for every logical block in use, this one, every log block, and one more.
  ghost predicate HasRoom(c: Config, s: State, also: set<nat>) {
    |InUse(s) + also| + c.limit < c.blocks
  }

  lemma RoomForMerge(c: Config, s: State, own: seq<Owner>, also: set<nat>)
    requires Inv(c, s, own, 0) && HasRoom(c, s, also)
    ensures |Mapped(s.data)| + |s.log| < c.blocks && c.limit < c.blocks
  {
    SubsetSize(Mapped(s.data), InUse(s) + also);
  }

  lemma RoomSame(c: Config, s: State, s': State, also: set<nat>)
    requires HasRoom(c, s, also) && InUse(s') == InUse(s)
    ensures HasRoom(c, s', also)
  {}

  // The state after get_page_block has handed out `b`.
  ghost predicate Allocated(c: Config, s: State, b: nat, s': State) {
    && Took(s.next, s.free, b, s'.next, s'.free, c.blocks)
    && s'.blocks == s.blocks && s'.data == s.data
  }

  lemma HolderTakes(own: seq<Owner>, next: nat, free: seq<nat>, b: nat, next': nat, free': seq<nat>, to: Owner)
    requires FreeHeld(own, free, next) && next <= |own|
    requires Took(next, free, b, next', free', |own|) && to != Fresh && to != Free
    ensures b < |own| && (own[b] == Fresh || own[b] == Free) && next' <= |own|
    ensures FreeHeld(own[b := to], free', next')
  {
    if next >= |own| {
      assert free[0] in free;
      assert free == [free[0]] + free';
      assert forall i :: 0 <= i < |free'| ==> free'[i] == free[i + 1];
      assert forall x :: x in free <==> x == free[0] || x in free';
      assert free[0] !in free';
    }
  }

  // Blocks that change hands outside the log map and outside the data list.
  lemma LogUntouched(own: seq<Owner>, log: map<nat, LogPageBlock>, b: nat, to: Owner)
    requires LogHeld(own, log) && b < |own| && !own[b].Log? && !to.Log?
    ensures LogHeld(own[b := to], log)
  {}

  lemma DataUntouched(own: seq<Owner>, data: seq<int>, b: nat, to: Owner)
    requires DataHeld(own, data) && b < |own| && !own[b].Data? && !to.Data?
    ensures DataHeld(own[b := to], data)
  {}

  lemma LogJoins(own: seq<Owner>, log: map<nat, LogPageBlock>, l: nat, lb: LogPageBlock)
    requires LogHeld(own, log) && l < |own| && l !in log && lb.address < |own| && !own[lb.address].Log?
    ensures LogHeld(own[lb.address := Log(l)], log[l := lb])
  {}

  lemma LogOkFrame(c: Config, s: State, s': State, l: nat)
    requires Shape(c, s) && Shape(c, s') && l in s.log && s.log[l].address < c.blocks && LogOk(c, s, l)
    requires l in s'.log && s'.log[l] == s.log[l] && s'.data[l] == s.data[l]
    requires s'.blocks[s.log[l].address] == s.blocks[s.log[l].address]
    requires 0 <= s.data[l] < c.blocks ==> s'.blocks[s.data[l]] == s.blocks[s.data[l]]
    ensures LogOk(c, s', l)
  {}

  // Pages, page maps and data blocks as they were: only ownership or counters moved.
  lemma SamePages(c: Config, s: State, s': State, own: seq<Owner>, b: nat, to: Owner)
    requires Shape(c, s) && LogsOk(c, s) && Blanks(s.blocks, own)
    requires s'.log == s.log && s'.data == s.data && s'.blocks == s.blocks && s'.next <= c.blocks
    requires b < |own| && to != Fresh && to != Free
    ensures Shape(c, s') && LogsOk(c, s') && SameContents(c, s, s') && Blanks(s'.blocks, own[b := to])
  {}

  lemma HolderGives(own: seq<Owner>, next: nat, free: seq<nat>, b: nat)
    requires FreeHeld(own, free, next) && b < |own| && own[b] != Fresh && own[b] != Free
    ensures FreeHeld(own[b := Free], free + [b], next)
  {
    assert forall x :: x in free + [b] <==> x in free || x == b;
  }

  lemma LogLeaves(own: seq<Owner>, log: map<nat, LogPageBlock>, l: nat, to: Owner)
    requires LogHeld(own, log) && l in log && !to.Log?
    ensures LogHeld(own[log[l].address := to], log - {l})
  {}

  lemma LogRemapped(own: seq<Owner>, log: map<nat, LogPageBlock>, l: nat, lb: LogPageBlock)
    requires LogHeld(own, log) && l in log && lb.address == log[l].address
    ensures LogHeld(own, log[l := lb])
  {}

  lemma DataJoins(own: seq<Owner>, data: seq<int>, l: nat, b: nat)
    requires DataHeld(own, data) && l < |data| && data[l] == -1 && b < |own| && !own[b].Data?
    ensures DataHeld(own[b := Data(l)], data[l := b])
  {}

  lemma FreeUntouched(own: seq<Owner>, free: seq<nat>, next: nat, b: nat, to: Owner)
    requires FreeHeld(own, free, next) && b < |own|
    requires own[b] != Fresh && own[b] != Free && to != Fresh && to != Free
    ensures FreeHeld(own[b := to], free, next)
  {}

  lemma DataLeaves(own: seq<Owner>, data: seq<int>, l: nat, to: Owner)
    requires DataHeld(own, data) && l < |data| && data[l] != -1 && !to.Data?
    ensures 0 <= data[l] < |own| && own[data[l]] == Data(l)
    ensures DataHeld(own[data[l] := to], data[l := -1])
  {}

  lemma MappedUpdate(data: seq<int>, l: nat, b: int)
    requires l < |data|
    ensures Mapped(data[l := b]) == if b == -1 then Mapped(data) - {l} else Mapped(data) + {l}
  {}

  ghost predicate DataOk(c: Config, s: State, l: nat) {
    Shape(c, s) && l < c.blocks && -1 <= s.data[l] < c.blocks
  }

  lemma LogShrinks(log: map<nat, LogPageBlock>, l: nat)
    requires l in log
    ensures |log - {l}| == |log| - 1 && (log - {l}).Keys == log.Keys - {l}
  {
    assert (log - {l}).Keys == log.Keys - {l};
    assert |log.Keys - {l}| == |log.Keys| - 1;
  }

  ghost predicate LogOkIfAny(c: Config, s: State, l: nat)
    requires Shape(c, s)
  {
    l in s.log ==> s.log[l].address < c.blocks && LogOk(c, s, l)
  }

  ghost predicate SameExcept(c: Config, s: State, s': State, l: nat, o: nat)
    requires Shape(c, s) && Shape(c, s')
  {
    forall k, p :: 0 <= k < c.blocks && 0 <= p < c.size && !(k == l && p == o) ==> Live(c, s', k, p) == Live(c, s, k, p)
  }

  ghost predicate SameElsewhere(c: Config, s: State, s': State, l: nat)
    requires Shape(c, s) && Shape(c, s')
  {
    forall k, o :: 0 <= k < c.blocks && 0 <= o < c.size && k != l ==> Live(c, s', k, o) == Live(c, s, k, o)
  }

  // A logical block, its log block and its data block.
  lemma Held(c: Config, s: State, own: seq<Owner>, l: nat, loose: nat)
    requires Inv(c, s, own, loose) && l < c.blocks
    ensures DataOk(c, s, l) && |own| == c.blocks
    ensures s.data[l] != -1 ==> own[s.data[l]] == Data(l)
    ensures l in s.log ==>
        && s.log[l].address < c.blocks
        && own[s.log[l].address] == Log(l)
        && LogOk(c, s, l)
        && s.data[l] != s.log[l].address
    ensures l in s.log ==> |s.log[l].pages| == c.size && s.blocks[s.log[l].address].valid <= c.size
  {
    if l in s.log {
      assert LogOk(c, s, l);
    }
  }

  // A step that writes only blocks held for logical block `l`, or loose ones,
  // keeps every other logical block's maps and contents.
  lemma OthersUntouched(c: Config, s: State, s': State, own: seq<Owner>, l: nat)
    requires Shape(c, s) && Shape(c, s') && |own| == c.blocks
    requires LogHeld(own, s.log) && DataHeld(own, s.data) && LogsOk(c, s)
    requires forall b :: 0 <= b < c.blocks && own[b] != Log(l) && own[b] != Data(l) && own[b] != Loose ==>
        s'.blocks[b] == s.blocks[b]
    requires forall k :: k != l ==> (k in s.log <==> k in s'.log)
    requires forall k :: k != l && k in s.log ==> s'.log[k] == s.log[k]
    requires forall k :: 0 <= k < c.blocks && k != l ==> s'.data[k] == s.data[k]
    requires LogOkIfAny(c, s', l)
    ensures LogsOk(c, s') && SameElsewhere(c, s, s', l)
  {
    hide LogOk, SameElsewhere;
    forall k | k in s'.log && k != l ensures LogOkIfAny(c, s', k) {
      LogOkFrame(c, s, s', k);
    }
    assert forall k :: k in s'.log ==> LogOkIfAny(c, s', k);
    forall k | 0 <= k < c.blocks && k != l ensures SameAt(c, s, s', k) {
      SameFrame(c, s, s', k);
    }
    AllSameAt(c, s, s', l);
  }

  ghost predicate SameAt(c: Config, s: State, s': State, k: nat)
    requires Shape(c, s) && Shape(c, s') && k < c.blocks
  {
    forall o :: 0 <= o < c.size ==> Live(c, s', k, o) == Live(c, s, k, o)
  }

  lemma AllSameAt(c: Config, s: State, s': State, l: nat)
    requires Shape(c, s) && Shape(c, s')
    requires forall k :: 0 <= k < c.blocks && k != l ==> SameAt(c, s, s', k)
    ensures SameElsewhere(c, s, s', l)
  {
    forall k, o | 0 <= k < c.blocks && 0 <= o < c.size && k != l ensures Live(c, s', k, o) == Live(c, s, k, o) {
      assert SameAt(c, s, s', k);
    }
  }

  lemma SameFrame(c: Config, s: State, s': State, k: nat)
    requires Shape(c, s) && Shape(c, s') && k < c.blocks
    requires k in s.log <==> k in s'.log
    requires k in s.log ==>
        && s'.log[k] == s.log[k]
        && s.log[k].address < c.blocks
        && s'.blocks[s.log[k].address] == s.blocks[s.log[k].address]
    requires s'.data[k] == s.data[k]
    requires 0 <= s.data[k] < c.blocks ==> s'.blocks[s.data[k]] == s.blocks[s.data[k]]
    ensures SameAt(c, s, s', k)
  {}

  // random_merge starts: a block for the merged pages, counted as data.
  lemma AllocateLoose(c: Config, s: State, own: seq<Owner>, b: nat, s': State)
    requires Inv(c, s, own, 0) && Allocated(c, s, b, s')
    requires s'.log == s.log && s'.dataActive == s.dataActive + 1 && s'.logActive == s.logActive
    ensures b < c.blocks && s.blocks[b].Blank()
    ensures Inv(c, s', own[b := Loose], 1) && SameContents(c, s, s')
  {
    hide FreeHeld, LogHeld, DataHeld, LogsOk, SameContents, BlockValue.Blank;
    HolderTakes(own, s.next, s.free, b, s'.next, s'.free, Loose);
    LogUntouched(own, s.log, b, Loose);
    DataUntouched(own, s.data, b, Loose);
    SamePages(c, s, s', own, b, Loose);
  }

  // allocate_new_logblock: an empty log block joins the map.
  lemma AllocateLog(c: Config, s: State, own: seq<Owner>, l: nat, b: nat, s': State)
    requires Inv(c, s, own, 0) && Allocated(c, s, b, s')
    requires l < c.blocks && l !in s.log && |s.log| < c.limit
    requires s'.log == s.log[l := LogPageBlock(b, seq(c.size, _ => -1))]
    requires s'.dataActive == s.dataActive && s'.logActive == s.logActive + 1
    ensures b < c.blocks == |own| && s.blocks[b].Blank()
    ensures Inv(c, s', own[b := Log(l)], 0) && SameContents(c, s, s') && InUse(s') == InUse(s) + {l}
  {
    hide FreeHeld, LogHeld, DataHeld, LogsOk, SameContents, BlockValue.Blank;
    HolderTakes(own, s.next, s.free, b, s'.next, s'.free, Log(l));
    LogJoins(own, s.log, l, s'.log[l]);
    DataUntouched(own, s.data, b, Log(l));
    EmptyLogPages(c, s, s', own, l, b);
  }

  lemma EmptyLogPages(c: Config, s: State, s': State, own: seq<Owner>, l: nat, b: nat)
    requires Shape(c, s) && LogsOk(c, s) && Blanks(s.blocks, own) && |own| == c.blocks
    requires l < c.blocks && l !in s.log && b < c.blocks && s.blocks[b].Blank()
    requires s'.log == s.log[l := LogPageBlock(b, seq(c.size, _ => -1))]
    requires s'.data == s.data && s'.blocks == s.blocks && s'.next <= c.blocks
    ensures Shape(c, s') && LogsOk(c, s') && SameContents(c, s, s') && Blanks(s'.blocks, own[b := Log(l)])
  {
    EmptyLogOk(c, s', l);
    hide LogOk, BlockValue.Blank, Live;
    forall k | k in s'.log ensures s'.log[k].address < c.blocks && LogOk(c, s', k) {
      if k != l { LogOkFrame(c, s, s', k); }
    }
    NothingLogged(c, s, s', l);
    hide SameContents, LogsOk;
  }

  lemma NothingLogged(c: Config, s: State, s': State, l: nat)
    requires Shape(c, s) && Shape(c, s') && l !in s.log && l in s'.log && s'.log == s.log[l := s'.log[l]]
    requires s'.log[l].pages == seq(c.size, _ => -1) && s'.data == s.data && s'.blocks == s.blocks
    ensures SameContents(c, s, s')
  {}

  lemma EmptyLogOk(c: Config, s: State, l: nat)
    requires Shape(c, s) && l in s.log && l < c.blocks && s.log[l].address < c.blocks &&
        s.blocks[s.log[l].address].Blank()
    requires s.log[l].pages == seq(c.size, _ => -1)
    ensures LogOk(c, s, l)
  {}

  // ---------- write ----------

  // The page the write event replaces: the copy in the data block unless that
  // page is EMPTY, else the previous copy in the log block.
  ghost function Superseded(c: Config, s: State, l: nat, o: nat): Option<PageAddr>
    requires Shape(c, s) && l < c.blocks && o < c.size && l in s.log && |s.log[l].pages| == c.size
  {
    if 0 <= s.data[l] < c.blocks && s.blocks[s.data[l]].pages[o].state != EMPTY then Some(PageAddr(s.data[l], o))
    else if s.log[l].pages[o] >= 0 then Some(PageAddr(s.log[l].address, s.log[l].pages[o]))
    else None
  }

  // `l` has a log block with room, and its data block, if any, is another block.
  ghost predicate CanAppend(c: Config, s: State, l: nat, o: nat) {
    && Shape(c, s) && l < c.blocks && o < c.size
    && l in s.log && s.log[l].address < c.blocks && LogOk(c, s, l)
    && s.blocks[s.log[l].address].valid < c.size
    && s.data[l] != s.log[l].address
  }

  ghost function Append(c: Config, s: State, l: nat, o: nat, bytes: Bytes): State
    requires CanAppend(c, s, l, o)
  {
    var lb := s.log[l];
    var n := s.blocks[lb.address].valid;
    s.(blocks := AfterWrite(s.blocks, PageAddr(lb.address, n), bytes, Superseded(c, s, l, o)),
       log := s.log[l := lb.(pages := lb.pages[o := n])])
  }

  // Appending a page to the log block changes that page's content and no other.
  lemma WriteStep(c: Config, s: State, own: seq<Owner>, l: nat, o: nat, bytes: Bytes)
    requires Inv(c, s, own, 0) && CanAppend(c, s, l, o)
    ensures var s' := Append(c, s, l, o, bytes);
            Inv(c, s', own, 0) && Live(c, s', l, o) == Some(bytes) && SameExcept(c, s, s', l, o) &&
              InUse(s') == InUse(s)
  {
    hide FreeHeld, LogHeld, DataHeld, LogsOk, LogOk, LogOkIfAny, SameElsewhere, SameExcept, BlockValue.Blank, Live,
        Superseded, AfterWrite;
    var s' := Append(c, s, l, o, bytes);
    AppendTouches(c, s, own, l, o, bytes);
    AppendLogOk(c, s, l, o, bytes);
    AppendLive(c, s, l, o, bytes);
    BlanksKept(s.blocks, s'.blocks, own);
    OthersUntouched(c, s, s', own, l);
    LogRemapped(own, s.log, l, s'.log[l]);
    AllOthers(c, s, s', l, o);
    assert s'.log.Keys == s.log.Keys;
  }

  lemma AllOthers(c: Config, s: State, s': State, l: nat, o: nat)
    requires Shape(c, s) && Shape(c, s')
    requires SameElsewhere(c, s, s', l)
    requires l < c.blocks ==> forall p :: 0 <= p < c.size && p != o ==> Live(c, s', l, p) == Live(c, s, l, p)
    ensures SameExcept(c, s, s', l, o)
  {}

  lemma BlanksKept(blocks: seq<BlockValue>, blocks': seq<BlockValue>, own: seq<Owner>)
    requires Blanks(blocks, own) && |blocks'| == |blocks|
    requires forall b :: 0 <= b < |own| && b < |blocks| && (own[b] == Fresh || own[b] == Free) ==>
        blocks'[b] == blocks[b]
    ensures Blanks(blocks', own)
  {}

  lemma AppendTouches(c: Config, s: State, own: seq<Owner>, l: nat, o: nat, bytes: Bytes)
    requires CanAppend(c, s, l, o) && |own| == c.blocks && LogHeld(own, s.log) && DataHeld(own, s.data)
    ensures var s' := Append(c, s, l, o, bytes);
            && Shape(c, s')
            && forall b :: 0 <= b < c.blocks && own[b] != Log(l) && own[b] != Data(l) ==> s'.blocks[b] == s.blocks[b]
  {}

  lemma AppendLogOk(c: Config, s: State, l: nat, o: nat, bytes: Bytes)
    requires CanAppend(c, s, l, o)
    ensures var s' := Append(c, s, l, o, bytes); Shape(c, s') && LogOkIfAny(c, s', l)
  {}

  lemma AppendLive(c: Config, s: State, l: nat, o: nat, bytes: Bytes)
    requires CanAppend(c, s, l, o)
    ensures var s' := Append(c, s, l, o, bytes);
            && Shape(c, s') && Live(c, s', l, o) == Some(bytes)
            && forall p :: 0 <= p < c.size && p != o ==> Live(c, s', l, p) == Live(c, s, l, p)
  {}

  // ---------- switch ----------

  ghost predicate Sequential(lb: LogPageBlock, size: nat) {
    |lb.pages| == size && forall i :: 0 <= i < size ==> lb.pages[i] == i
  }

  ghost function EraseIf(blocks: seq<BlockValue>, b: int): seq<BlockValue>
    requires b == -1 || 0 <= b < |blocks|
  {
    if b == -1 then blocks else blocks[b := blocks[b].Erase()]
  }

  ghost function FreeIf(free: seq<nat>, b: int): seq<nat>
    requires b >= -1
  {
    if b == -1 then free else free + [b]
  }

  ghost function OwnIf(own: seq<Owner>, b: int, to: Owner): seq<Owner>
    requires b == -1 || 0 <= b < |own|
  {
    if b == -1 then own else own[b := to]
  }

  // The log block becomes the data block; the old data block is erased.
  ghost function Switched(c: Config, s: State, l: nat): State
    requires DataOk(c, s, l) && l in s.log
  {
    s.(blocks := EraseIf(s.blocks, s.data[l]), free := FreeIf(s.free, s.data[l]),
       data := s.data[l := s.log[l].address], log := s.log - {l},
       dataActive := s.dataActive + (if s.data[l] == -1 then 1 else 0), logActive := s.logActive - 1)
  }

  lemma SwitchStep(c: Config, s: State, own: seq<Owner>, l: nat)
    requires Inv(c, s, own, 0) && l in s.log && l < c.blocks && Sequential(s.log[l], c.size)
    ensures DataOk(c, s, l) && s.log[l].address < c.blocks
    ensures var own' := OwnIf(own, s.data[l], Free)[s.log[l].address := Data(l)];
            Inv(c, Switched(c, s, l), own', 0) && SameContents(c, s, Switched(c, s, l))
    ensures InUse(Switched(c, s, l)) == InUse(s)
  {
    hide FreeHeld, LogHeld, DataHeld, LogsOk, LogOk, LogOkIfAny, SameElsewhere, SameContents, BlockValue.Blank, Live;
    Held(c, s, own, l, 0);
    var s' := Switched(c, s, l);
    var a, d := s.log[l].address, s.data[l];
    HandOver(own, s, l, a, OwnIf(own, d, Free)[a := Data(l)], FreeIf(s.free, d));
    SwitchPages(c, s, l);
    ErasedBlank(s.blocks, own, l, a, d);
    OthersUntouched(c, s, s', own, l);
    AllSame(c, s, s', l);
    SwitchCounters(c, s, l);
  }

  lemma SwitchCounters(c: Config, s: State, l: nat)
    requires Counters(c, s, 0) && DataOk(c, s, l) && l in s.log
    ensures Counters(c, Switched(c, s, l), 0) && InUse(Switched(c, s, l)) == InUse(s)
  {
    assert l < |s.data|;
    hide Shape, EraseIf, Mapped;
    LogToData(s.data, s.log, l, s.log[l].address);
  }

  lemma LogToData(data: seq<int>, log: map<nat, LogPageBlock>, l: nat, a: nat)
    requires l < |data| && l in log
    ensures |Mapped(data[l := a])| == |Mapped(data)| + (if data[l] == -1 then 1 else 0)
    ensures |log - {l}| == |log| - 1
    ensures Mapped(data[l := a]) + (log - {l}).Keys == Mapped(data) + log.Keys
  {
    MappedUpdate(data, l, a);
    LogShrinks(log, l);
    assert data[l] != -1 <==> l in Mapped(data);
    hide Mapped;
    MoveMember(Mapped(data), log.Keys, l);
  }

  lemma MoveMember(m: set<nat>, k: set<nat>, l: nat)
    requires l in k
    ensures (m + {l}) + (k - {l}) == m + k
    ensures |m + {l}| == |m| + (if l in m then 0 else 1)
  {
    if l in m {
      assert m + {l} == m;
    }
  }

  // Block `b`, in the log map under `l`, becomes l's data block, and the data
  // block `d` it had, if any, goes to the free list.
  lemma HandOver(own: seq<Owner>, s: State, l: nat, a: nat, own': seq<Owner>, free': seq<nat>)
    requires FreeHeld(own, s.free, s.next) && LogHeld(own, s.log) && DataHeld(own, s.data)
    requires l in s.log && a == s.log[l].address && l < |s.data| && -1 <= s.data[l] < |own| && a < |own|
    requires free' == FreeIf(s.free, s.data[l]) && own' == OwnIf(own, s.data[l], Free)[a := Data(l)]
    ensures FreeHeld(own', free', s.next) && LogHeld(own', s.log - {l}) && DataHeld(own', s.data[l := a])
  {
    var d := s.data[l];
    LogLeaves(own, s.log, l, Data(l));
    if d != -1 {
      HolderGives(own, s.next, s.free, d);
      assert own' == own[a := Data(l)][d := Free];
    }
  }

  lemma SwitchPages(c: Config, s: State, l: nat)
    requires DataOk(c, s, l) && l in s.log && s.log[l].address < c.blocks && LogOk(c, s, l)
    requires Sequential(s.log[l], c.size) && s.data[l] != s.log[l].address
    ensures var s' := Switched(c, s, l);
            Shape(c, s') && LogOkIfAny(c, s', l) && forall o :: 0 <= o < c.size ==>
              Live(c, s', l, o) == Live(c, s, l, o)
  {}

  // Erasing the block a logical block gives up leaves it blank like all free blocks.
  lemma ErasedBlank(blocks: seq<BlockValue>, own: seq<Owner>, l: nat, a: nat, d: int)
    requires Blanks(blocks, own) && -1 <= d < |blocks| && |own| == |blocks| && a < |own|
    ensures Blanks(EraseIf(blocks, d), OwnIf(own, d, Free)[a := Data(l)])
  {
    hide FreeHeld, LogHeld, DataHeld;
  }

  lemma AllSame(c: Config, s: State, s': State, l: nat)
    requires Shape(c, s) && Shape(c, s')
    requires SameElsewhere(c, s, s', l)
    requires l < c.blocks ==> forall p :: 0 <= p < c.size ==> Live(c, s', l, p) == Live(c, s, l, p)
    ensures SameContents(c, s, s')
  {}

  // ---------- full merge ----------

  // Page `o` of the merged block holds what the logical page held, and is not
  // VALID when the logical page held nothing.
  ghost predicate Copied(c: Config, s: State, l: nat, o: nat, page: Page)
    requires Shape(c, s) && l < c.blocks && o < c.size
  {
    match Live(c, s, l, o)
    case Some(bytes) => page == Page(VALID, bytes)
    case None => page.state == EMPTY
  }

  // The merged block nb becomes the data block of l; its log block and its old
  // data block are erased and freed, in that order.
  ghost predicate Merged(c: Config, s: State, l: nat, nb: nat, s': State) {
    && DataOk(c, s, l) && l in s.log && nb < c.blocks && s.log[l].address < c.blocks
    && |s'.blocks| == c.blocks
    && (forall b :: 0 <= b < c.blocks && b != nb && b != s.log[l].address && b != s.data[l] ==>
      s'.blocks[b] == s.blocks[b])
    && (forall b :: 0 <= b < c.blocks ==> |s'.blocks[b].pages| == c.size)
    && (forall o :: 0 <= o < c.size ==> Copied(c, s, l, o, s'.blocks[nb].pages[o]))
    && s'.blocks[s.log[l].address].Blank() && (s.data[l] != -1 ==> s'.blocks[s.data[l]].Blank())
    && s'.free == FreeIf(s.free + [s.log[l].address], s.data[l]) && s'.next == s.next
    && s'.data == s.data[l := nb] && s'.log == s.log - {l}
    && s'.logActive == s.logActive - 1
    && s'.dataActive == s.dataActive - (if s.data[l] == -1 then 0 else 1)
  }

  // ---------- which blocks a write takes and gives up ----------

  ghost predicate HasBlock(c: Config, s: State) {
    s.next < c.blocks || s.free != []
  }

  // Blocks never used come first, in address order, then the oldest freed one.
  ghost function NextBlock(c: Config, s: State): nat
    requires HasBlock(c, s)
  {
    if s.next < c.blocks then s.next else s.free[0]
  }

  ghost function TakenAs(c: Config, s: State, kind: BlockType): State
    requires HasBlock(c, s)
  {
    var t := if s.next < c.blocks then s.(next := s.next + 1) else s.(free := s.free[1..]);
    if kind == DATA then t.(dataActive := t.dataActive + 1) else t.(logActive := t.logActive + 1)
  }

  // A log block with every page in its place becomes the data block, and only
  // the old data block is erased and freed. Any other is copied in full into a
  // block taken for it, and both old blocks are erased and freed.
  ghost predicate MergedAway(c: Config, s: State, l: nat, s': State) {
    && DataOk(c, s, l) && l in s.log
    && if Sequential(s.log[l], c.size) then s' == Switched(c, s, l)
       else HasBlock(c, s) && Merged(c, TakenAs(c, s, DATA), l, NextBlock(c, s), s')
  }

  ghost predicate LogAdded(c: Config, s: State, l: nat, s': State) {
    && HasBlock(c, s)
    && s' == TakenAs(c, s, LOG).(log := s.log[l := LogPageBlock(NextBlock(c, s), seq(c.size, _ => -1))])
  }

  lemma AddedLog(c: Config, s: State, l: nat, b: nat, s': State)
    requires Allocated(c, s, b, s') && s'.log == s.log[l := LogPageBlock(b, seq(c.size, _ => -1))]
    requires s'.dataActive == s.dataActive && s'.logActive == s.logActive + 1
    ensures LogAdded(c, s, l, s')
  {}

  // The block an allocation takes belongs to nobody.
  lemma NextIsNobodys(c: Config, s: State, own: seq<Owner>, l: nat)
    requires Inv(c, s, own, 0) && HasBlock(c, s) && l < c.blocks
    ensures NextBlock(c, s) < c.blocks && NextBlock(c, s) != s.data[l]
    ensures l in s.log ==> NextBlock(c, s) != s.log[l].address
  {
    Held(c, s, own, l, 0);
    if s.next >= c.blocks {
      assert s.free[0] in s.free;
    }
    hide LogsOk, Blanks, LogHeld, DataHeld, LogOk;
  }

  // A switch copies nothing, takes nothing, and gives up only the old data block.
  lemma SwitchOutcome(c: Config, s: State, own: seq<Owner>, l: nat, s': State)
    requires Inv(c, s, own, 0) && l in s.log && l < c.blocks && MergedAway(c, s, l, s') && Sequential(s.log[l], c.size)
    ensures DataOk(c, s, l) && s.log[l].address < c.blocks && |s'.blocks| == |s'.data| == c.blocks
    ensures s'.data[l] == s.log[l].address && l !in s'.log && s'.next == s.next
    ensures s'.free == (if s.data[l] == -1 then s.free else s.free + [s.data[l]])
    ensures s.data[l] != -1 ==> s'.blocks[s.data[l]].Blank()
    ensures forall b :: 0 <= b < c.blocks && b != s.data[l] ==> s'.blocks[b] == s.blocks[b]
  {
    Held(c, s, own, l, 0);
    hide Inv, LogOk;
  }

  // A full merge takes one block and gives up both others, blank.
  lemma FullMergeOutcome(c: Config, s: State, own: seq<Owner>, l: nat, s': State)
    requires Inv(c, s, own, 0) && l in s.log && l < c.blocks && MergedAway(c, s, l, s') && !Sequential(s.log[l], c.size)
    ensures HasBlock(c, s) && DataOk(c, s, l) && s.log[l].address < c.blocks && |s'.blocks| == |s'.data| == c.blocks
    ensures s'.data[l] == NextBlock(c, s) != s.log[l].address && l !in s'.log
    ensures s'.next == (if s.next < c.blocks then s.next + 1 else s.next)
    ensures var rest := if s.next < c.blocks then s.free else s.free[1..];
            s'.free == if s.data[l] == -1 then rest + [s.log[l].address] else rest + [s.log[l].address, s.data[l]]
    ensures s'.blocks[s.log[l].address].Blank() && (s.data[l] != -1 ==> s'.blocks[s.data[l]].Blank())
  {
    Held(c, s, own, l, 0);
    NextIsNobodys(c, s, own, l);
    assert |s.data| == c.blocks;
    hide Inv, Shape, LogOk, Sequential, BlockValue.Blank;
    MergedOutcome(c, TakenAs(c, s, DATA), l, NextBlock(c, s), s');
    hide Merged, DataOk;
  }

  lemma MergedOutcome(c: Config, s: State, l: nat, nb: nat, s': State)
    requires l in s.log && l < |s.data| && Merged(c, s, l, nb, s')
    ensures |s'.blocks| == |s.blocks| && s.log[l].address < |s.blocks| && s'.data == s.data[l := nb] && l !in s'.log
    ensures s'.next == s.next
    ensures s'.free == if s.data[l] == -1 then s.free + [s.log[l].address] else s.free + [s.log[l].address, s.data[l]]
    ensures s'.blocks[s.log[l].address].Blank()
    ensures s.data[l] != -1 ==> 0 <= s.data[l] < |s.blocks| && s'.blocks[s.data[l]].Blank()
  {}

  ghost function MergedOwners(own: seq<Owner>, l: nat, a: nat, d: int, nb: nat): seq<Owner>
    requires a < |own| && -1 <= d < |own| && nb < |own|
  {
    OwnIf(own[nb := Data(l)][a := Free], d, Free)
  }

  lemma MergeStep(c: Config, s: State, own: seq<Owner>, l: nat, nb: nat, s': State)
    requires Inv(c, s, own, 1) && l in s.log && l < c.blocks && nb < c.blocks && own[nb] == Loose
    requires Merged(c, s, l, nb, s')
    ensures Inv(c, s', MergedOwners(own, l, s.log[l].address, s.data[l], nb), 0) && SameContents(c, s, s')
    ensures InUse(s') == InUse(s)
  {
    hide FreeHeld, LogHeld, DataHeld, LogsOk, LogOk, LogOkIfAny, SameElsewhere, SameContents, BlockValue.Blank, Live,
        Copied, InUse;
    Held(c, s, own, l, 1);
    var a, d := s.log[l].address, s.data[l];
    MergeHandOver(own, s, l, a, d, nb, s'.free);
    MergePages(c, s, l, nb, s');
    OthersUntouched(c, s, s', own, l);
    AllSame(c, s, s', l);
    MergeCounters(c, s, l, nb, s');
  }

  lemma MergeHandOver(own: seq<Owner>, s: State, l: nat, a: nat, d: int, nb: nat, free': seq<nat>)
    requires FreeHeld(own, s.free, s.next) && LogHeld(own, s.log) && DataHeld(own, s.data)
    requires l in s.log && a == s.log[l].address < |own| && l < |s.data| && d == s.data[l] && -1 <= d < |own|
    requires nb < |own| && own[nb] == Loose && free' == FreeIf(s.free + [a], d)
    ensures var own' := MergedOwners(own, l, a, d, nb);
            FreeHeld(own', free', s.next) && LogHeld(own', s.log - {l}) && DataHeld(own', s.data[l := nb])
  {
    hide FreeHeld, LogHeld, DataHeld;
    ReleaseLog(own, s.free, s.next, s.log, s.data, l);
    var own1 := own[a := Free];
    if d != -1 {
      ReleaseData(own1, s.free + [a], s.next, s.log - {l}, s.data, l);
      MergedJoins(own1[d := Free], free', s.next, s.log - {l}, s.data[l := -1], l, nb);
      assert s.data[l := -1][l := nb] == s.data[l := nb];
      assert MergedOwners(own, l, a, d, nb) == own1[d := Free][nb := Data(l)];
    } else {
      MergedJoins(own1, free', s.next, s.log - {l}, s.data, l, nb);
      assert MergedOwners(own, l, a, d, nb) == own1[nb := Data(l)];
    }
  }

  lemma ReleaseLog(own: seq<Owner>, free: seq<nat>, next: nat, log: map<nat, LogPageBlock>, data: seq<int>, l: nat)
    requires FreeHeld(own, free, next) && LogHeld(own, log) && DataHeld(own, data) && l in log
    ensures var a := log[l].address;
            && a < |own| && own[a] == Log(l) && FreeHeld(own[a := Free], free + [a], next)
            && LogHeld(own[a := Free], log - {l}) && DataHeld(own[a := Free], data)
  {
    var a := log[l].address;
    assert a < |own| && own[a] == Log(l);
    hide FreeHeld, LogHeld, DataHeld;
    HolderGives(own, next, free, a);
    LogLeaves(own, log, l, Free);
    DataUntouched(own, data, a, Free);
  }

  lemma ReleaseData(own: seq<Owner>, free: seq<nat>, next: nat, log: map<nat, LogPageBlock>, data: seq<int>, l: nat)
    requires FreeHeld(own, free, next) && LogHeld(own, log) && DataHeld(own, data) && l < |data| && data[l] != -1
    ensures var d := data[l];
            && 0 <= d < |own| && own[d] == Data(l) && FreeHeld(own[d := Free], free + [d], next)
            && LogHeld(own[d := Free], log) && DataHeld(own[d := Free], data[l := -1])
  {
    var d := data[l];
    assert 0 <= d < |own| && own[d] == Data(l);
    hide FreeHeld, LogHeld, DataHeld;
    HolderGives(own, next, free, d);
    LogUntouched(own, log, d, Free);
    DataLeaves(own, data, l, Free);
  }

  // The loose block becomes the data block.
  lemma MergedJoins(own: seq<Owner>, free: seq<nat>, next: nat, log: map<nat, LogPageBlock>, data: seq<int>, l: nat,
                    nb: nat)
    requires FreeHeld(own, free, next) && LogHeld(own, log) && DataHeld(own, data)
    requires nb < |own| && own[nb] == Loose && l < |data| && data[l] == -1
    ensures var own' := own[nb := Data(l)];
            FreeHeld(own', free, next) && LogHeld(own', log) && DataHeld(own', data[l := nb])
  {
    hide FreeHeld, LogHeld, DataHeld;
    FreeUntouched(own, free, next, nb, Data(l));
    LogUntouched(own, log, nb, Data(l));
    DataJoins(own, data, l, nb);
  }

  lemma MergePages(c: Config, s: State, l: nat, nb: nat, s': State)
    requires Merged(c, s, l, nb, s') && s'.next <= c.blocks
    ensures Shape(c, s') && LogOkIfAny(c, s', l)
    ensures forall o :: 0 <= o < c.size ==> Live(c, s', l, o) == Live(c, s, l, o)
  {
    forall o | 0 <= o < c.size ensures Live(c, s', l, o) == Live(c, s, l, o) {
      assert Copied(c, s, l, o, s'.blocks[nb].pages[o]);
    }
  }

  lemma MergeCounters(c: Config, s: State, l: nat, nb: nat, s': State)
    requires Counters(c, s, 1) && Merged(c, s, l, nb, s')
    ensures Counters(c, s', 0) && InUse(s') == InUse(s)
  {
    assert l < |s.data| && |s'.free| == |s.free| + (if s.data[l] == -1 then 1 else 2);
    hide Shape, Mapped;
    LogToData(s.data, s.log, l, nb);
  }

  // Where random_merge reads page `o` from.
  ghost function Source(c: Config, s: State, l: nat, o: nat): Option<PageAddr>
    requires DataOk(c, s, l) && l in s.log && o < |s.log[l].pages|
  {
    if s.log[l].pages[o] >= 0 then Some(PageAddr(s.log[l].address, s.log[l].pages[o]))
    else if s.data[l] != -1 then Some(PageAddr(s.data[l], o))
    else None
  }

  // The merge of l, started in state s, has gone through the first `done` pages.
  ghost predicate MergeProgress(c: Config, s: State, l: nat, nb: nat, done: nat, view: seq<BlockValue>) {
    && CanMerge(c, s, l, nb) && done <= c.size
    && |view| == c.blocks && (forall b :: 0 <= b < c.blocks ==> |view[b].pages| == c.size)
    && (forall b :: 0 <= b < c.blocks && b != nb && b != s.log[l].address && b != s.data[l] ==> view[b] == s.blocks[b])
    && (forall o :: 0 <= o < done ==> Copied(c, s, l, o, view[nb].pages[o]))
    && (forall o :: done <= o < c.size ==> view[nb].pages[o].state == EMPTY && Intact(c, s, l, o, view))
  }

  ghost predicate CanMerge(c: Config, s: State, l: nat, nb: nat) {
    && DataOk(c, s, l) && nb < c.blocks
    && l in s.log && s.log[l].address < c.blocks && LogOk(c, s, l)
    && nb != s.log[l].address && nb != s.data[l] && s.data[l] != s.log[l].address
  }

  // The page that `o` would be read from is still as the merge found it.
  ghost predicate Intact(c: Config, s: State, l: nat, o: nat, view: seq<BlockValue>)
    requires DataOk(c, s, l) && l in s.log && s.log[l].address < c.blocks && LogOk(c, s, l)
    requires o < c.size && |view| == c.blocks && forall b :: 0 <= b < c.blocks ==> |view[b].pages| == c.size
  {
    var at := Source(c, s, l, o);
    at.Some? ==> view[at.value.block].pages[at.value.page] == s.blocks[at.value.block].pages[at.value.page]
  }

  lemma MergeStarts(c: Config, s: State, own: seq<Owner>, l: nat, nb: nat)
    requires Inv(c, s, own, 1) && l in s.log && l < c.blocks && nb < c.blocks && own[nb] == Loose &&
        s.blocks[nb].Blank()
    ensures MergeProgress(c, s, l, nb, 0, s.blocks)
  {
    Held(c, s, own, l, 1);
    assert CanMerge(c, s, l, nb);
  }

  // What the next round of the copy loop may rely on.
  lemma MergeReads(c: Config, s: State, l: nat, nb: nat, done: nat, view: seq<BlockValue>)
    requires MergeProgress(c, s, l, nb, done, view) && done < c.size
    ensures CanMerge(c, s, l, nb) && |s.log[l].pages| == c.size && s.log[l].pages[done] >= -1
    ensures |view| == c.blocks && forall b :: 0 <= b < c.blocks ==> |view[b].pages| == c.size
    ensures view[nb].pages[done].state == EMPTY
    ensures var at := Source(c, s, l, done);
            at.Some? ==> at.value.block < c.blocks && at.value.page < c.size && at.value.block != nb
  {}

  // Nothing is copied when there is no source page or it is not VALID.
  lemma MergeSkips(c: Config, s: State, l: nat, nb: nat, done: nat, view: seq<BlockValue>)
    requires MergeProgress(c, s, l, nb, done, view) && done < c.size
    requires var at := Source(c, s, l, done); at.None? || view[at.value.block].pages[at.value.page].state != VALID
    ensures MergeProgress(c, s, l, nb, done + 1, view)
  {
    assert Intact(c, s, l, done, view);
    assert Copied(c, s, l, done, view[nb].pages[done]);
  }

  lemma MergeCopies(c: Config, s: State, l: nat, nb: nat, done: nat, view: seq<BlockValue>)
    requires MergeProgress(c, s, l, nb, done, view) && done < c.size
    requires var at := Source(c, s, l, done); at.Some? && view[at.value.block].pages[at.value.page].state == VALID
    ensures var at := Source(c, s, l, done).value;
            MergeProgress(c, s, l, nb, done + 1,
              AfterWrite(view, PageAddr(nb, done), view[at.block].pages[at.page].data, Some(at)))
  {
    var at := Source(c, s, l, done).value;
    var view' := AfterWrite(view, PageAddr(nb, done), view[at.block].pages[at.page].data, Some(at));
    assert Intact(c, s, l, done, view);
    forall o | done < o < c.size ensures Intact(c, s, l, o, view') {
      assert Intact(c, s, l, o, view);
    }
    assert Copied(c, s, l, done, view'[nb].pages[done]);
  }

  lemma MergeFinishes(c: Config, s: State, l: nat, nb: nat, view: seq<BlockValue>, s': State)
    requires MergeProgress(c, s, l, nb, c.size, view)
    requires s'.blocks == EraseIf(view[s.log[l].address := view[s.log[l].address].Erase()], s.data[l])
    requires s'.free == FreeIf(s.free + [s.log[l].address], s.data[l]) && s'.next == s.next
    requires s'.data == s.data[l := nb] && s'.log == s.log - {l} && s'.logActive == s.logActive - 1
    requires s'.dataActive == s.dataActive - (if s.data[l] == -1 then 0 else 1)
    ensures Merged(c, s, l, nb, s')
  {}

  lemma MergeViewSize(c: Config, s: State, l: nat, nb: nat, view: seq<BlockValue>)
    requires MergeProgress(c, s, l, nb, c.size, view)
    ensures |view| == c.blocks
  {}

  lemma LogBounds(c: Config, s: State, own: seq<Owner>)
    requires Inv(c, s, own, 0)
    ensures s.logActive == |s.log| <= c.limit && c.limit > 0
    ensures forall l :: l in s.log ==> l < c.blocks
  {}

  lemma ShapeOf(c: Config, s: State, own: seq<Owner>, loose: nat)
    requires Inv(c, s, own, loose)
    ensures Shape(c, s)
  {}

  lemma NothingDiffers(c: Config, s: State, l: nat, o: nat)
    requires Shape(c, s)
    ensures SameExcept(c, s, s, l, o)
  {}

  lemma ExceptTrans(c: Config, s: State, t: State, u: State, l: nat, o: nat)
    requires Shape(c, s) && Shape(c, t) && Shape(c, u) && SameExcept(c, s, t, l, o) && SameExcept(c, t, u, l, o)
    ensures SameExcept(c, s, u, l, o)
  {}

  lemma ExceptThenSame(c: Config, s: State, t: State, u: State, l: nat, o: nat)
    requires Shape(c, s) && Shape(c, t) && Shape(c, u) && SameExcept(c, s, t, l, o) && SameContents(c, t, u)
    ensures SameExcept(c, s, u, l, o)
    ensures l < c.blocks && o < c.size ==> Live(c, u, l, o) == Live(c, t, l, o)
  {}

  lemma SameContentsTrans(c: Config, s: State, t: State, u: State)
    requires Shape(c, s) && Shape(c, t) && Shape(c, u) && SameContents(c, s, t) && SameContents(c, t, u)
    ensures SameContents(c, s, u)
  {}

  // The block a write goes to has room, and the page it goes to is EMPTY.
  lemma AppendReady(c: Config, s: State, own: seq<Owner>, l: nat, o: nat)
    requires Inv(c, s, own, 0) && l < c.blocks && o < c.size && l in s.log
    requires s.log[l].address < c.blocks && s.blocks[s.log[l].address].valid < c.size
    ensures CanAppend(c, s, l, o) && |s.log[l].pages| == c.size && |s.blocks| == c.blocks
    ensures |s.blocks[s.log[l].address].pages| == c.size
    ensures s.blocks[s.log[l].address].pages[s.blocks[s.log[l].address].valid].state == EMPTY
    ensures s.log[l].pages[o] != -1 ==> 0 <= s.log[l].pages[o] < c.size
    ensures -1 <= s.data[l] < c.blocks && (s.data[l] != -1 ==> |s.blocks[s.data[l]].pages| == c.size)
  {
    Held(c, s, own, l, 0);
  }

  lemma SupersededInDrive(c: Config, s: State, l: nat, o: nat)
    requires CanAppend(c, s, l, o)
    ensures var at := Superseded(c, s, l, o);
            at.Some? ==>
                at.value.block < c.blocks && at.value.page < c.size && |s.blocks[at.value.block].pages| == c.size
  {}

  // ---------- read ----------

  // The page a read is sent to, before INVALID pages are redirected.
  ghost function Target(c: Config, s: State, l: nat, o: nat): PageAddr
    requires DataOk(c, s, l) && o < c.size && (l in s.log ==> |s.log[l].pages| == c.size)
  {
    if l in s.log && s.log[l].pages[o] >= 0 then PageAddr(s.log[l].address, s.log[l].pages[o])
    else if s.data[l] == -1 then PageAddr(0, 0)
    else PageAddr(s.data[l], o)
  }

  lemma TargetHoldsContent(c: Config, s: State, own: seq<Owner>, l: nat, o: nat)
    requires Inv(c, s, own, 0) && l < c.blocks && o < c.size
    ensures DataOk(c, s, l) && |s.data| == |s.blocks| == c.blocks
    ensures l in s.log ==> |s.log[l].pages| == c.size && s.log[l].pages[o] >= -1
    ensures var at := Target(c, s, l, o);
            && at.block < c.blocks && at.page < c.size && |s.blocks[at.block].pages| == c.size
            && (Live(c, s, l, o).Some? ==> s.blocks[at.block].pages[at.page] == Page(VALID, Live(c, s, l, o).value))
  {
    Held(c, s, own, l, 0);
  }

  // ---------- trim ----------

  // Logical page `o` is dropped from the log block that holds it.
  ghost function LogTrimmed(c: Config, s: State, l: nat, o: nat): State
    requires Shape(c, s) && l in s.log && s.log[l].address < c.blocks && o < |s.log[l].pages| &&
        0 <= s.log[l].pages[o] < c.size
  {
    var lb := s.log[l];
    s.(blocks := s.blocks[lb.address := s.blocks[lb.address].Invalidate(lb.pages[o])],
       log := s.log[l := lb.(pages := lb.pages[o := -1])])
  }

  lemma TrimLogStep(c: Config, s: State, own: seq<Owner>, l: nat, o: nat)
    requires Inv(c, s, own, 0) && l in s.log && l < c.blocks && o < c.size && o < |s.log[l].pages| &&
        s.log[l].pages[o] != -1
    ensures s.log[l].address < c.blocks && 0 <= s.log[l].pages[o] < c.size
    ensures var s' := LogTrimmed(c, s, l, o);
            Inv(c, s', own, 0) && SameExcept(c, s, s', l, o) && Live(c, s', l, o) == None && InUse(s') == InUse(s)
  {
    hide FreeHeld, LogHeld, DataHeld, LogsOk, LogOkIfAny, SameElsewhere, SameExcept, BlockValue.Blank, Live;
    Held(c, s, own, l, 0);
    assert 0 <= s.log[l].pages[o] < c.size;
    hide LogOk;
    var s' := LogTrimmed(c, s, l, o);
    TrimLogPages(c, s, l, o);
    BlanksKept(s.blocks, s'.blocks, own);
    OthersUntouched(c, s, s', own, l);
    LogRemapped(own, s.log, l, s'.log[l]);
    AllOthers(c, s, s', l, o);
    assert s'.log.Keys == s.log.Keys;
  }

  lemma TrimLogPages(c: Config, s: State, l: nat, o: nat)
    requires DataOk(c, s, l) && l in s.log && s.log[l].address < c.blocks && LogOk(c, s, l) &&
        s.data[l] != s.log[l].address
    requires o < c.size && 0 <= s.log[l].pages[o] < c.size
    ensures var s' := LogTrimmed(c, s, l, o);
            && Shape(c, s') && LogOkIfAny(c, s', l) && Live(c, s', l, o) == None
            && forall p :: 0 <= p < c.size && p != o ==> Live(c, s', l, p) == Live(c, s, l, p)
  {}

  // A log block with no VALID page leaves the map and is erased.
  ghost function LogDropped(c: Config, s: State, l: nat): State
    requires Shape(c, s) && l in s.log && s.log[l].address < c.blocks
  {
    var a := s.log[l].address;
    s.(blocks := s.blocks[a := s.blocks[a].Erase()], free := s.free + [a], log := s.log - {l},
      logActive := s.logActive - 1)
  }

  lemma DropLogStep(c: Config, s: State, own: seq<Owner>, l: nat)
    requires Inv(c, s, own, 0) && l in s.log && l < c.blocks && s.log[l].address < c.blocks
    requires forall p :: 0 <= p < c.size ==> s.blocks[s.log[l].address].pages[p].state == INVALID
    ensures var s' := LogDropped(c, s, l);
            Inv(c, s', own[s.log[l].address := Free], 0) && SameContents(c, s, s') && InUse(s') <= InUse(s)
  {
    hide FreeHeld, LogHeld, DataHeld, LogsOk, LogOk, LogOkIfAny, SameElsewhere, SameContents, BlockValue.Blank, Live;
    Held(c, s, own, l, 0);
    var s', a := LogDropped(c, s, l), s.log[l].address;
    DropLogPages(c, s, l);
    HolderGives(own, s.next, s.free, a);
    LogLeaves(own, s.log, l, Free);
    DataUntouched(own, s.data, a, Free);
    ErasedBlankAt(s.blocks, own, a);
    OthersUntouched(c, s, s', own, l);
    AllSame(c, s, s', l);
    LogShrinks(s.log, l);
  }

  lemma ErasedBlankAt(blocks: seq<BlockValue>, own: seq<Owner>, a: nat)
    requires Blanks(blocks, own) && a < |blocks| == |own|
    ensures Blanks(blocks[a := blocks[a].Erase()], own[a := Free])
  {}

  lemma DropLogPages(c: Config, s: State, l: nat)
    requires DataOk(c, s, l) && l in s.log && s.log[l].address < c.blocks && LogOk(c, s, l) &&
        s.data[l] != s.log[l].address
    requires forall p :: 0 <= p < c.size ==> s.blocks[s.log[l].address].pages[p].state == INVALID
    ensures var s' := LogDropped(c, s, l);
            Shape(c, s') && LogOkIfAny(c, s', l) && forall p :: 0 <= p < c.size ==>
              Live(c, s', l, p) == Live(c, s, l, p)
  {
    assert forall o :: 0 <= o < c.size ==> s.log[l].pages[o] == -1;
  }

  ghost function DataTrimmed(c: Config, s: State, l: nat, o: nat): State
    requires DataOk(c, s, l) && s.data[l] != -1 && o < c.size
  {
    s.(blocks := s.blocks[s.data[l] := s.blocks[s.data[l]].Invalidate(o)])
  }

  // Trimming page `o` of the data block when the log does not hold it.
  lemma TrimDataStep(c: Config, s: State, own: seq<Owner>, l: nat, o: nat)
    requires Inv(c, s, own, 0) && l < c.blocks && o < c.size && s.data[l] != -1
    requires l in s.log && o < |s.log[l].pages| ==> s.log[l].pages[o] == -1
    ensures DataOk(c, s, l)
    ensures var s' := DataTrimmed(c, s, l, o);
            Inv(c, s', own, 0) && SameExcept(c, s, s', l, o) && Live(c, s', l, o) == None && InUse(s') == InUse(s)
  {
    hide FreeHeld, LogHeld, DataHeld, LogsOk, LogOk, LogOkIfAny, SameElsewhere, SameExcept, BlockValue.Blank, Live;
    Held(c, s, own, l, 0);
    var s' := DataTrimmed(c, s, l, o);
    TrimDataPages(c, s, l, o);
    BlanksKept(s.blocks, s'.blocks, own);
    OthersUntouched(c, s, s', own, l);
    AllOthers(c, s, s', l, o);
  }

  lemma TrimDataPages(c: Config, s: State, l: nat, o: nat)
    requires DataOk(c, s, l) && s.data[l] != -1 && o < c.size
    requires l in s.log ==>
        s.log[l].address < c.blocks && LogOk(c, s, l) && s.data[l] != s.log[l].address && s.log[l].pages[o] == -1
    ensures var s' := DataTrimmed(c, s, l, o);
            && Shape(c, s') && LogOkIfAny(c, s', l) && Live(c, s', l, o) == None
            && forall p :: 0 <= p < c.size && p != o ==> Live(c, s', l, p) == Live(c, s, l, p)
  {}

  // A data block with no VALID page is given up and erased.
  ghost function DataDropped(c: Config, s: State, l: nat): State
    requires DataOk(c, s, l) && s.data[l] != -1
  {
    var d := s.data[l];
    s.(blocks := s.blocks[d := s.blocks[d].Erase()], free := s.free + [d], data := s.data[l := -1],
      dataActive := s.dataActive - 1)
  }

  lemma DropDataStep(c: Config, s: State, own: seq<Owner>, l: nat)
    requires Inv(c, s, own, 0) && DataOk(c, s, l) && s.data[l] != -1
    requires forall p :: 0 <= p < c.size ==> s.blocks[s.data[l]].pages[p].state == INVALID
    ensures var s' := DataDropped(c, s, l);
            Inv(c, s', own[s.data[l] := Free], 0) && SameContents(c, s, s') && InUse(s') <= InUse(s)
  {
    hide FreeHeld, LogHeld, DataHeld, LogsOk, LogOk, LogOkIfAny, SameElsewhere, SameContents, BlockValue.Blank, Live;
    Held(c, s, own, l, 0);
    var s', d := DataDropped(c, s, l), s.data[l];
    DropDataPages(c, s, l);
    HolderGives(own, s.next, s.free, d);
    DataLeaves(own, s.data, l, Free);
    LogUntouched(own, s.log, d, Free);
    ErasedBlankAt(s.blocks, own, d);
    OthersUntouched(c, s, s', own, l);
    AllSame(c, s, s', l);
    MappedUpdate(s.data, l, -1);
    assert l in Mapped(s.data);
  }

  lemma DropDataPages(c: Config, s: State, l: nat)
    requires DataOk(c, s, l) && s.data[l] != -1
    requires l in s.log ==> s.log[l].address < c.blocks && LogOk(c, s, l) && s.data[l] != s.log[l].address
    requires forall p :: 0 <= p < c.size ==> s.blocks[s.data[l]].pages[p].state == INVALID
    ensures var s' := DataDropped(c, s, l);
            Shape(c, s') && LogOkIfAny(c, s', l) && forall p :: 0 <= p < c.size ==>
              Live(c, s', l, p) == Live(c, s, l, p)
  {}

  // ---------- what a trim leaves behind ----------

  // Page `o` is logged, and every other page of its log block is INVALID.
  ghost predicate LogGivenUp(c: Config, s: State, l: nat, o: nat)
    requires Shape(c, s)
  {
    && l in s.log && o < |s.log[l].pages| && s.log[l].pages[o] != -1 && s.log[l].address < c.blocks
    && forall q :: 0 <= q < c.size && q != s.log[l].pages[o] ==> s.blocks[s.log[l].address].pages[q].state == INVALID
  }

  // A logged page becomes INVALID and leaves the page map. When it was the last
  // one, its block leaves the log blank and goes to the end of the free list.
  ghost predicate LogTrimOutcome(c: Config, s: State, l: nat, o: nat, s': State)
    requires Shape(c, s)
  {
    if !(l in s.log && o < |s.log[l].pages| && s.log[l].pages[o] != -1) then s' == s
    else
      var lb := s.log[l];
      && lb.address < c.blocks && 0 <= lb.pages[o] < c.size && |s'.blocks| == c.blocks
      && s'.data == s.data && s'.next == s.next && s'.dataActive == s.dataActive
      && (forall b :: 0 <= b < c.blocks && b != lb.address ==> s'.blocks[b] == s.blocks[b])
      && if LogGivenUp(c, s, l, o) then
           && s'.log == s.log - {l} && s'.free == s.free + [lb.address] && s'.logActive == s.logActive - 1
           && s'.blocks[lb.address].Blank()
         else
           && s'.log == s.log[l := lb.(pages := lb.pages[o := -1])] && s'.free == s.free && s'.logActive == s.logActive
           && s'.blocks[lb.address] == s.blocks[lb.address].Invalidate(lb.pages[o])
  }

  ghost predicate DataGivenUp(c: Config, s: State, l: nat, o: nat)
    requires Shape(c, s) && l < c.blocks
  {
    && 0 <= s.data[l] < c.blocks
    && forall q :: 0 <= q < c.size && q != o ==> s.blocks[s.data[l]].pages[q].state == INVALID
  }

  // The same for the data block.
  ghost predicate DataTrimOutcome(c: Config, s: State, l: nat, o: nat, s': State)
    requires Shape(c, s) && l < c.blocks && o < c.size
  {
    if s.data[l] == -1 then s' == s
    else
      var d := s.data[l];
      && 0 <= d < c.blocks && |s'.blocks| == c.blocks
      && s'.log == s.log && s'.next == s.next && s'.logActive == s.logActive
      && (forall b :: 0 <= b < c.blocks && b != d ==> s'.blocks[b] == s.blocks[b])
      && if DataGivenUp(c, s, l, o) then
           && s'.data == s.data[l := -1] && s'.free == s.free + [d] && s'.dataActive == s.dataActive - 1
           && s'.blocks[d].Blank()
         else
           && s'.data == s.data && s'.free == s.free && s'.dataActive == s.dataActive
           && s'.blocks[d] == s.blocks[d].Invalidate(o)
  }

  lemma LogTrimmedOutcome(c: Config, s: State, own: seq<Owner>, l: nat, o: nat, dropped: bool)
    requires Inv(c, s, own, 0) && l in s.log && l < c.blocks && o < |s.log[l].pages| && s.log[l].pages[o] != -1
    requires s.log[l].address < c.blocks && 0 <= s.log[l].pages[o] < c.size
    requires var s1 := LogTrimmed(c, s, l, o);
             Shape(c, s1) && (dropped <==> forall q :: 0 <= q < c.size ==>
               s1.blocks[s.log[l].address].pages[q].state == INVALID)
    ensures var s1 := LogTrimmed(c, s, l, o);
            LogTrimOutcome(c, s, l, o, if dropped then LogDropped(c, s1, l) else s1)
  {
    hide LogsOk, Blanks, Partition, Counters;
    var s1 := LogTrimmed(c, s, l, o);
    var a, p := s.log[l].address, s.log[l].pages[o];
    assert s1.blocks[a].pages[p].state == INVALID;
    assert forall q :: 0 <= q < c.size && q != p ==> s1.blocks[a].pages[q] == s.blocks[a].pages[q];
    assert dropped <==> LogGivenUp(c, s, l, o);
    assert s1.log - {l} == s.log - {l};
  }

  lemma DataTrimmedOutcome(c: Config, s: State, l: nat, o: nat, dropped: bool)
    requires DataOk(c, s, l) && s.data[l] != -1 && o < c.size && Shape(c, DataTrimmed(c, s, l, o))
    requires dropped <==>
               forall q :: 0 <= q < c.size ==> DataTrimmed(c, s, l, o).blocks[s.data[l]].pages[q].state == INVALID
    ensures var s1 := DataTrimmed(c, s, l, o);
            DataTrimOutcome(c, s, l, o, if dropped then DataDropped(c, s1, l) else s1)
  {
    var s1 := DataTrimmed(c, s, l, o);
    var d := s.data[l];
    assert s1.blocks[d].pages[o].state == INVALID;
    assert forall q :: 0 <= q < c.size && q != o ==> s1.blocks[d].pages[q] == s.blocks[d].pages[q];
    assert dropped <==> DataGivenUp(c, s, l, o);
  }

  // ---------- which page a write makes obsolete ----------

  // The data page becomes INVALID if there is one that is not EMPTY, and then an
  // older log page stays as it is; else the older log page does. No other page
  // changes but the one written.
  lemma WriteInvalidates(c: Config, s: State, l: nat, o: nat, bytes: Bytes, b: nat, p: nat)
    requires CanAppend(c, s, l, o) && -1 <= s.data[l] && b < c.blocks && p < c.size
    ensures var s', a := Append(c, s, l, o, bytes), s.log[l].address;
            var obsolete := if s.data[l] != -1 && s.data[l] < c.blocks && s.blocks[s.data[l]].pages[o].state != EMPTY
                            then b == s.data[l] && p == o
                            else b == a && p == s.log[l].pages[o];
            && |s'.blocks| == c.blocks && |s'.blocks[b].pages| == c.size
            && s'.blocks[b].pages[p] ==
                 (if b == a && p == s.blocks[a].valid then Page(VALID, bytes)
                  else if obsolete then Page(INVALID, s.blocks[b].pages[p].data)
                  else s.blocks[b].pages[p])
            && s'.log[l].pages == s.log[l].pages[o := s.blocks[a].valid]
  {}
}
