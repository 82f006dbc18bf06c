// The BAST translation layer (FTLs/bast_ftl.cpp): one data block per logical
// block, plus a bounded number of log blocks written in arrival order.
module Bast {
  import Arithmetic
  import opened Geometry
  import opened Flash
  import opened Drive
  import opened BlockManagement
  import opened BastModel
  import opened FiniteSets
  import opened Host

  // A logical page number splits into a logical block, by shifting, and a page
  // within it, by remainder. The two agree on where a block starts only when
  // BLOCK_SIZE is a power of two, but they always identify the page.
  function Lba(c: Config, lpn: nat): nat
    requires c.Ok()
  {
    lpn / c.span
  }

  function Offset(c: Config, lpn: nat): (o: nat)
    requires c.Ok()
    ensures o < c.size
  {
    lpn % c.size
  }

  lemma SlotsDistinct(c: Config, a: nat, b: nat)
    requires c.Ok() && Lba(c, a) == Lba(c, b) && Offset(c, a) == Offset(c, b)
    ensures a == b
  {
    var q := a / c.span;
    assert q * c.span <= a < q * c.span + c.span && q * c.span <= b < q * c.span + c.span;
    CongruentClose(a, b, c.size);
  }

  lemma CongruentClose(a: nat, b: nat, m: nat)
    requires m > 0 && a % m == b % m && a - b < m && b - a < m
    ensures a == b
  {
    var x, y := a / m, b / m;
    assert a - b == (x - y) * m;
    if x > y {
      Arithmetic.MulMonotone(1, x - y, m);
    } else if x < y {
      Arithmetic.MulMonotone(1, y - x, m);
    }
  }

  // `contents` is what the host last wrote and has not trimmed, by logical page.
  ghost predicate Represents(c: Config, s: State, contents: map<nat, Bytes>)
    requires Shape(c, s)
  {
    forall lpn: nat :: Lba(c, lpn) < c.blocks ==>
      Live(c, s, Lba(c, lpn), Offset(c, lpn)) == (if lpn in contents then Some(contents[lpn]) else None)
  }

  lemma RepresentsSame(c: Config, s: State, s': State, contents: map<nat, Bytes>)
    requires Shape(c, s) && Shape(c, s') && SameContents(c, s, s') && Represents(c, s, contents)
    ensures Represents(c, s', contents)
  {}

  lemma RepresentsChange(c: Config, s: State, s': State, lpn: nat, contents: map<nat, Bytes>,
                         contents': map<nat, Bytes>)
    requires Shape(c, s) && Shape(c, s') && Lba(c, lpn) < c.blocks && Represents(c, s, contents)
    requires SameExcept(c, s, s', Lba(c, lpn), Offset(c, lpn))
    requires Live(c, s', Lba(c, lpn), Offset(c, lpn)) == (if lpn in contents' then Some(contents'[lpn]) else None)
    requires forall k :: k != lpn ==> (k in contents' <==> k in contents)
    requires forall k :: k != lpn && k in contents ==> contents'[k] == contents[k]
    ensures Represents(c, s', contents')
  {
    forall k: nat | Lba(c, k) < c.blocks
      ensures Live(c, s', Lba(c, k), Offset(c, k)) == (if k in contents' then Some(contents'[k]) else None)
    {
      if k != lpn && Lba(c, k) == Lba(c, lpn) && Offset(c, k) == Offset(c, lpn) {
        SlotsDistinct(c, k, lpn);
      }
    }
  }

  // ---------- victim choice ----------

  predicate IsSmallest(keys: set<nat>, k: nat) {
    k in keys && forall x :: x in keys ==> k <= x
  }

  lemma {:induction false} SmallestExists(keys: set<nat>)
    requires keys != {}
    ensures exists k :: IsSmallest(keys, k)
  {
    var x :| x in keys;
    var rest := keys - {x};
    if rest == {} {
      assert keys == {x};
      assert IsSmallest(keys, x);
    } else {
      SmallestExists(rest);
      var k :| IsSmallest(rest, k);
      assert keys == rest + {x};
      assert IsSmallest(keys, if k < x then k else x);
    }
  }

  // How many keys of the ordered map come before k.
  ghost function Rank(keys: set<nat>, k: nat): nat {
    |set x | x in keys && x < k|
  }

  // random() % log_map.size() - 1, with the iterator left at begin() when negative.
  function VictimIndex(r: nat, size: nat): nat
    requires size > 0
  {
    if r % size == 0 then 0 else r % size - 1
  }

  lemma RankIsSize(keys: set<nat>, before: set<nat>, after: set<nat>, k: nat)
    requires before + after == keys && IsSmallest(after, k) && forall x, y :: x in before && y in after ==> x < y
    ensures Rank(keys, k) == |before|
  {
    assert before == set x | x in keys && x < k;
  }

  // The index reaches every place but the last, and that one only when alone.
  lemma VictimPlaces(r: nat, size: nat)
    requires size > 0
    ensures VictimIndex(r, size) < (if size == 1 then 1 else size - 1)
    ensures r + 1 < size ==> VictimIndex(r + 1, size) == r
  {}

  lemma RankBelow(keys: set<nat>, k: nat)
    requires k in keys
    ensures Rank(keys, k) < |keys|
    ensures Rank(keys, k) < |keys| - 1 ==> exists x :: x in keys && x > k
  {
    var before := set x | x in keys && x < k;
    SubsetSize(before, keys - {k});
    if forall x :: x in keys ==> x <= k {
      assert before == keys - {k};
    }
  }

  // At the limit the victim is merged away; below it nothing happens.
  ghost predicate Evicted(c: Config, s: State, r: nat, s': State)
    requires c.Ok()
  {
    if |s.log| < c.limit then s' == s
    else exists k :: k in s.log && Rank(s.log.Keys, k) == VictimIndex(r, |s.log|) && MergedAway(c, s, k, s')
  }

  // How a write makes room in the log of its logical block: a full log block is
  // merged away first; one that is not there yet costs the victim's.
  ghost predicate Prepared(c: Config, s: State, l: nat, r: nat, mid: State, ready: State) {
    && c.Ok() && Shape(c, s)
    && if l !in s.log then Evicted(c, s, r, mid) && LogAdded(c, mid, l, ready)
       else
         && s.log[l].address < c.blocks
         && if s.blocks[s.log[l].address].valid < c.size then mid == s && ready == s
            else MergedAway(c, s, l, mid) && LogAdded(c, mid, l, ready)
  }

  lemma NoLogTrim(c: Config, s: State, l: nat, o: nat)
    requires Shape(c, s)
    ensures !(l in s.log && o < |s.log[l].pages| && s.log[l].pages[o] != -1) ==> LogTrimOutcome(c, s, l, o, s)
  {}

  lemma MergedLog(c: Config, s: State, l: nat, s': State)
    requires MergedAway(c, s, l, s')
    ensures s'.log == s.log - {l}
  {}

  lemma NothingChanged(c: Config, s: State)
    requires Shape(c, s)
    ensures SameContents(c, s, s)
  {}

  class FtlImpl_Bast {
    const c: Config
    const ssd: Ssd
    const bm: BlockManager
    var logMap: map<nat, LogPageBlock>
    const dataList: array<int>

    ghost var own: seq<Owner>
    // What the host last wrote and has not trimmed.
    ghost var contents: map<nat, Bytes>

    ghost function S(): State
      reads this, dataList, bm, ssd
    {
      State(ssd.view, logMap, dataList[..], bm.freeList, bm.simpleCurrentFree, bm.dataActive, bm.logActive)
    }

    // How the objects are connected; none of this changes after construction.
    ghost predicate Fixed() {
      && c.Ok() && c.size == ssd.g.blockSize && c.blocks == ssd.g.Blocks() && dataList.Length == c.blocks
      && bm.ssd == ssd && bm.maxBlocks == c.blocks
      && this !in ssd.Repr && bm !in ssd.Repr && dataList !in ssd.Repr
    }

    ghost predicate Core()
      reads this, dataList, bm, ssd, ssd.Repr
    {
      ssd.Valid() && bm.invalidList == [] && Inv(c, S(), own, 0)
    }

    ghost predicate Valid()
      reads this, dataList, bm, ssd, ssd.Repr
    {
      Fixed() && Core() && Represents(c, S(), contents)
    }

    constructor (ssd: Ssd, span: nat, limit: nat)
      requires ssd.Valid() && ssd.g.Blocks() > 0 && 0 < span <= ssd.g.blockSize && limit > 0
      requires forall k :: 0 <= k < |ssd.view| ==> ssd.view[k] == FreshBlock(ssd.g.blockSize)
      ensures Valid() && this.ssd == ssd && c == Config(ssd.g.blockSize, ssd.g.Blocks(), span, limit)
      ensures contents == map[] && InUse(S()) == {} && fresh(bm) && fresh(dataList)
    {
      this.ssd := ssd;
      c := Config(ssd.g.blockSize, ssd.g.Blocks(), span, limit);
      bm := new BlockManager(ssd, ssd.g.Blocks());
      logMap := map[];
      dataList := new int[ssd.g.Blocks()](_ => -1);
      own := seq(ssd.g.Blocks(), _ => Fresh);
      contents := map[];
      new;
      StartsEmpty(c, S());
      hide Inv, Shape, Live, Ssd.Valid, InUse;
    }

    // If the log block holds every page in place, it becomes the data block.
    method IsSequential(lba: nat) returns (isSequential: bool)
      requires Fixed() && Core() && lba in logMap && lba < c.blocks
      modifies this, dataList, bm, ssd, ssd.Repr
      ensures Core() && SameContents(c, old(S()), S()) && contents == old(contents)
      ensures InUse(S()) == old(InUse(S()))
      ensures isSequential <==> Sequential(old(logMap[lba]), c.size)
      ensures isSequential ==> MergedAway(c, old(S()), lba, S())
      ensures !isSequential ==> S() == old(S()) && own == old(own)
    {
      hide Inv, SameContents, InUse, Ssd.Valid, LogOk;
      var logBlock := logMap[lba];
      Held(c, S(), own, lba, 0);
      NothingChanged(c, S());
      isSequential := true;
      for i := 0 to c.size
        invariant isSequential ==> forall k :: 0 <= k < i ==> logBlock.pages[k] == k
      {
        if logBlock.pages[i] != i {
          isSequential := false;
          break;
        }
      }
      if isSequential {
        Switch(lba, logBlock);
      }
    }

    method Switch(lba: nat, logBlock: LogPageBlock)
      requires Fixed() && Core() && lba in logMap && lba < c.blocks && logBlock == logMap[lba]
      requires Sequential(logBlock, c.size)
      modifies this, dataList, bm, ssd, ssd.Repr
      ensures Core() && SameContents(c, old(S()), S()) && contents == old(contents)
      ensures InUse(S()) == old(InUse(S()))
      ensures MergedAway(c, old(S()), lba, S())
    {
      hide Inv, SameContents, InUse, Ssd.Valid, LogOk;
      ghost var s := S();
      Held(c, s, own, lba, 0);
      SwitchStep(c, s, own, lba);
      var d := dataList[lba];
      bm.PromoteBlock(DATA);
      if d != -1 {
        bm.EraseAndInvalidate(d, DATA);
      }
      dataList[lba] := logBlock.address;
      logMap := logMap - {lba};
      own := OwnIf(own, d, Free)[logBlock.address := Data(lba)];
      assert S() == Switched(c, s, lba);
    }

    // The page a merge reads logical page `i` from.
    method MergeSource(lba: nat, i: nat, ghost s: State) returns (at: Option<PageAddr>)
      requires Fixed() && logMap == s.log && dataList[..] == s.data
      requires DataOk(c, s, lba) && lba in s.log && i < |s.log[lba].pages|
      ensures at == Source(c, s, lba, i)
    {
      var logBlock := logMap[lba];
      if logBlock.pages[i] >= 0 {
        at := Some(PageAddr(logBlock.address, logBlock.pages[i]));
      } else if dataList[lba] != -1 {
        at := Some(PageAddr(dataList[lba], i));
      } else {
        at := None;
      }
    }

    // One read and one write event, unless there is nothing VALID to copy.
    method CopyPage(lba: nat, nb: nat, i: nat, ghost s: State)
      requires Fixed() && ssd.Valid() && i < c.size && MergeProgress(c, s, lba, nb, i, ssd.view)
      requires logMap == s.log && dataList[..] == s.data
      modifies ssd, ssd.Repr
      ensures ssd.Valid() && MergeProgress(c, s, lba, nb, i + 1, ssd.view)
    {
      hide Ssd.Valid, MergeProgress, Intact, Copied, AfterWrite, LogOk;
      MergeReads(c, s, lba, nb, i, ssd.view);
      var at := MergeSource(lba, i, s);
      var state := EMPTY;
      if at.Some? {
        state := ssd.GetState(at.value);
      }
      if state == EMPTY || state == INVALID {
        MergeSkips(c, s, lba, nb, i, ssd.view);
      } else {
        MergeCopies(c, s, lba, nb, i, ssd.view);
        var bytes := ssd.Read(at.value);
        ssd.IssueWrite(PageAddr(nb, i), bytes, at);
      }
    }

    method CopyLivePages(lba: nat, nb: nat)
      requires Fixed() && ssd.Valid() && MergeProgress(c, S(), lba, nb, 0, ssd.view)
      modifies ssd, ssd.Repr
      ensures ssd.Valid() && MergeProgress(c, old(S()), lba, nb, c.size, ssd.view)
    {
      hide Ssd.Valid, MergeProgress;
      ghost var s := S();
      for i := 0 to c.size
        invariant ssd.Valid() && MergeProgress(c, s, lba, nb, i, ssd.view)
      {
        CopyPage(lba, nb, i, s);
      }
    }

    // The merge needs one block besides those in use.
    method RandomMerge(lba: nat)
      requires Fixed() && Core() && lba in logMap && lba < c.blocks
      requires |Mapped(dataList[..])| + |logMap| < c.blocks
      requires !Sequential(logMap[lba], c.size)
      modifies this, dataList, bm, ssd, ssd.Repr
      ensures Core() && SameContents(c, old(S()), S()) && contents == old(contents)
      ensures InUse(S()) == old(InUse(S()))
      ensures MergedAway(c, old(S()), lba, S())
    {
      hide Inv, SameContents, InUse, Ssd.Valid, LogOk, MergeProgress, Mapped, Shape, Merged, Sequential;
      Held(c, S(), own, lba, 0);
      ghost var s := S();
      var newDataBlock := AllocateMergeBlock(lba);
      ghost var s1 := S();
      CopyLivePages(lba, newDataBlock);
      FinishMerge(lba, newDataBlock, s1);
      ShapeOf(c, S(), own, 0);
      SameContentsTrans(c, s, s1, S());
    }

    method AllocateMergeBlock(lba: nat) returns (newDataBlock: nat)
      requires Fixed() && Core() && lba in logMap && lba < c.blocks
      requires |Mapped(dataList[..])| + |logMap| < c.blocks
      modifies this, dataList, bm, ssd, ssd.Repr
      ensures ssd.Valid() && bm.invalidList == [] && newDataBlock < c.blocks && |own| == c.blocks &&
          own[newDataBlock] == Loose
      ensures Inv(c, S(), own, 1) && MergeProgress(c, S(), lba, newDataBlock, 0, ssd.view)
      ensures Shape(c, old(S())) && Shape(c, S()) && SameContents(c, old(S()), S()) && InUse(S()) == old(InUse(S()))
      ensures HasBlock(c, old(S())) && newDataBlock == NextBlock(c, old(S())) && S() == TakenAs(c, old(S()), DATA)
      ensures contents == old(contents)
    {
      hide Inv, SameContents, Ssd.Valid, LogOk, MergeProgress, Mapped;
      ghost var s := S();
      Held(c, s, own, lba, 0);
      BlockAvailable(c, s, own);
      newDataBlock := bm.GetBlock(DATA);
      AllocateLoose(c, s, own, newDataBlock, S());
      own := own[newDataBlock := Loose];
      MergeStarts(c, S(), own, lba, newDataBlock);
    }

    method FinishMerge(lba: nat, newDataBlock: nat, ghost s: State)
      requires Fixed() && ssd.Valid() && bm.invalidList == []
      requires Inv(c, s, own, 1) && MergeProgress(c, s, lba, newDataBlock, c.size, ssd.view)
      requires lba in logMap && lba < c.blocks && newDataBlock < c.blocks && |own| == c.blocks &&
          own[newDataBlock] == Loose
      requires S() == s.(blocks := ssd.view)
      modifies this, dataList, bm, ssd, ssd.Repr
      ensures Core() && Shape(c, s) && SameContents(c, s, S()) && contents == old(contents)
      ensures InUse(S()) == InUse(s) && Merged(c, s, lba, newDataBlock, S())
    {
      hide Inv, SameContents, InUse, Ssd.Valid, LogOk, MergeProgress, Merged, Mapped;
      Held(c, s, own, lba, 1);
      MergeViewSize(c, s, lba, newDataBlock, ssd.view);
      var logBlock, d := logMap[lba], dataList[lba];
      ghost var view := ssd.view;
      bm.EraseAndInvalidate(logBlock.address, LOG);
      if d != -1 {
        bm.EraseAndInvalidate(d, DATA);
      }
      dataList[lba] := newDataBlock;
      logMap := logMap - {lba};
      MergeFinishes(c, s, lba, newDataBlock, view, S());
      MergeStep(c, s, own, lba, newDataBlock, S());
      own := MergedOwners(own, lba, logBlock.address, d, newDataBlock);
    }

    // Steps an iterator from the smallest key.
    method PickVictim(r: nat) returns (exLogicalBlock: nat)
      requires logMap != map[]
      ensures exLogicalBlock in logMap && Rank(logMap.Keys, exLogicalBlock) == VictimIndex(r, |logMap|)
    {
      var victim := VictimIndex(r, |logMap|);
      ghost var before := {};
      var after := logMap.Keys;
      SmallestExists(after);
      exLogicalBlock :| IsSmallest(after, exLogicalBlock);
      for i := 0 to victim
        invariant |before| == i && before !! after && before + after == logMap.Keys
        invariant IsSmallest(after, exLogicalBlock) && forall x, y :: x in before && y in after ==> x < y
      {
        before := before + {exLogicalBlock};
        after := after - {exLogicalBlock};
        assert |before| + |after| == |before + after|;
        SmallestExists(after);
        exLogicalBlock :| IsSmallest(after, exLogicalBlock);
      }
      RankIsSize(logMap.Keys, before, after, exLogicalBlock);
    }

    // Switches the log block in if it can, and merges it in full otherwise.
    method MergeAway(lba: nat)
      requires Fixed() && Core() && lba in logMap && lba < c.blocks
      requires |Mapped(dataList[..])| + |logMap| < c.blocks
      modifies this, dataList, bm, ssd, ssd.Repr
      ensures Core() && Shape(c, S()) && Shape(c, old(S())) && SameContents(c, old(S()), S()) &&
          contents == old(contents)
      ensures InUse(S()) == old(InUse(S())) && logMap == old(logMap) - {lba}
      ensures MergedAway(c, old(S()), lba, S())
    {
      hide Inv, SameContents, InUse, Ssd.Valid, Mapped, Sequential, Shape, MergedAway;
      ghost var s := S();
      ShapeOf(c, s, own, 0);
      var isSequential := IsSequential(lba);
      ShapeOf(c, S(), own, 0);
      if !isSequential {
        ghost var s1 := S();
        RandomMerge(lba);
        ShapeOf(c, S(), own, 0);
        SameContentsTrans(c, s, s1, S());
      }
      MergedLog(c, s, lba, S());
    }

    // Merges one log block away when the limit is reached.
    method EvictLogBlock(r: nat, ghost also: set<nat>)
      requires Fixed() && Core() && HasRoom(c, S(), also)
      modifies this, dataList, bm, ssd, ssd.Repr
      ensures Core() && Shape(c, S()) && Shape(c, old(S())) && SameContents(c, old(S()), S()) &&
          contents == old(contents)
      ensures InUse(S()) == old(InUse(S())) && |logMap| < c.limit && logMap.Keys <= old(logMap).Keys
      ensures Evicted(c, old(S()), r, S())
    {
      hide Inv, SameContents, InUse, Ssd.Valid, Mapped, Rank, Shape, VictimIndex, MergedAway;
      ghost var s := S();
      ShapeOf(c, s, own, 0);
      LogBounds(c, s, own);
      NothingChanged(c, s);
      if |logMap| >= c.limit {
        var exLogicalBlock := PickVictim(r);
        LogShrinks(logMap, exLogicalBlock);
        RoomForMerge(c, s, own, also);
        MergeAway(exLogicalBlock);
      }
    }

    method AllocateNewLogblock(lba: nat, r: nat) returns (ghost mid: State)
      requires Fixed() && Core() && lba < c.blocks && lba !in logMap && HasRoom(c, S(), {lba})
      modifies this, dataList, bm, ssd, ssd.Repr
      ensures Core() && Shape(c, S()) && Shape(c, old(S())) && SameContents(c, old(S()), S()) &&
          contents == old(contents)
      ensures InUse(S()) == old(InUse(S())) + {lba}
      ensures lba in logMap && logMap[lba].address < c.blocks && S().blocks[logMap[lba].address].valid == 0
      ensures Evicted(c, old(S()), r, mid) && LogAdded(c, mid, lba, S())
    {
      hide Inv, SameContents, Ssd.Valid, InUse, Mapped, HasRoom, Shape, Rank, Evicted, LogAdded;
      ghost var s := S();
      EvictLogBlock(r, {lba});
      RoomSame(c, s, S(), {lba});
      mid := S();
      AddLogBlock(lba, s);
    }

    method AddLogBlock(lba: nat, ghost before: State)
      requires Fixed() && Core() && lba < c.blocks && lba !in logMap && HasRoom(c, S(), {lba}) && |logMap| < c.limit
      requires Shape(c, before) && Shape(c, S()) && SameContents(c, before, S())
      modifies this, dataList, bm, ssd, ssd.Repr
      ensures Core() && Shape(c, S()) && SameContents(c, before, S()) && contents == old(contents)
      ensures InUse(S()) == old(InUse(S())) + {lba}
      ensures lba in logMap && logMap[lba].address < c.blocks && S().blocks[logMap[lba].address].valid == 0
      ensures LogAdded(c, old(S()), lba, S())
    {
      hide Inv, SameContents, Ssd.Valid, InUse, Mapped, Shape, HasRoom, Took, LogAdded;
      ghost var s := S();
      RoomForMerge(c, s, own, {lba});
      BlockAvailable(c, s, own);
      LogBounds(c, s, own);
      var address := bm.GetBlock(LOG);
      logMap := logMap[lba := LogPageBlock(address, seq(c.size, _ => -1))];
      AllocateLog(c, s, own, lba, address, S());
      AddedLog(c, s, lba, address, S());
      own := own[address := Log(lba)];
      ShapeOf(c, S(), own, 0);
      SameContentsTrans(c, before, s, S());
    }

    // Makes sure the logical block has a log block with a page to spare.
    method PrepareLogBlock(lba: nat, r: nat) returns (ghost mid: State)
      requires Fixed() && Core() && lba < c.blocks && HasRoom(c, S(), {lba})
      modifies this, dataList, bm, ssd, ssd.Repr
      ensures Core() && Shape(c, S()) && Shape(c, old(S())) && SameContents(c, old(S()), S()) &&
          contents == old(contents)
      ensures InUse(S()) == old(InUse(S())) + {lba}
      ensures lba in logMap && logMap[lba].address < c.blocks && S().blocks[logMap[lba].address].valid < c.size
      ensures Prepared(c, old(S()), lba, r, mid, S())
    {
      hide Inv, SameContents, Ssd.Valid, Mapped, HasRoom, Shape, LogOk, Evicted, LogAdded, MergedAway;
      ghost var s := S();
      ShapeOf(c, s, own, 0);
      if lba !in logMap {
        mid := AllocateNewLogblock(lba, r);
        return;
      }
      Held(c, s, own, lba, 0);
      NothingChanged(c, s);
      assert InUse(s) == InUse(s) + {lba};
      var numValid := ssd.GetNumValid(logMap[lba].address);
      mid := S();
      if numValid >= c.size {
        mid := ReplaceLogBlock(lba, r);
      }
    }

    // A full log block is merged away and a new one takes its place.
    method ReplaceLogBlock(lba: nat, r: nat) returns (ghost mid: State)
      requires Fixed() && Core() && lba < c.blocks && lba in logMap && HasRoom(c, S(), {lba})
      modifies this, dataList, bm, ssd, ssd.Repr
      ensures Core() && Shape(c, S()) && Shape(c, old(S())) && SameContents(c, old(S()), S()) &&
          contents == old(contents)
      ensures InUse(S()) == old(InUse(S())) + {lba}
      ensures lba in logMap && logMap[lba].address < c.blocks && S().blocks[logMap[lba].address].valid < c.size
      ensures MergedAway(c, old(S()), lba, mid) && LogAdded(c, mid, lba, S())
    {
      hide Inv, SameContents, InUse, Ssd.Valid, Mapped, HasRoom, Shape, MergedAway, LogAdded;
      ghost var s := S();
      LogBounds(c, s, own);
      RoomForMerge(c, s, own, {lba});
      MergeAway(lba);
      mid := S();
      RoomSame(c, s, mid, {lba});
      LogShrinks(s.log, lba);
      ghost var evicted := AllocateNewLogblock(lba, r);
      assert evicted == mid;
      SameContentsTrans(c, s, mid, S());
    }

    // The page a write makes obsolete, looked up before the page map changes.
    method ReplacedPage(lba: nat, page: nat) returns (replaced: Option<PageAddr>)
      requires Fixed() && ssd.Valid() && CanAppend(c, S(), lba, page) && -1 <= dataList[lba] < c.blocks
      requires |logMap[lba].pages| == c.size && -1 <= logMap[lba].pages[page]
      ensures replaced == Superseded(c, S(), lba, page)
    {
      hide Ssd.Valid, LogOk;
      var logBlock := logMap[lba];
      replaced := None;
      if logBlock.pages[page] != -1 {
        replaced := Some(PageAddr(logBlock.address, logBlock.pages[page]));
      }
      if dataList[lba] != -1 {
        var state := ssd.GetState(PageAddr(dataList[lba], page));
        if state != EMPTY {
          replaced := Some(PageAddr(dataList[lba], page));
        }
      }
    }

    // The program operation of a write. The cursor of the log block is the
    // number of pages programmed since its last erase.
    method AppendPage(lba: nat, page: nat, bytes: Bytes)
      requires Fixed() && ssd.Valid() && bm.invalidList == [] && Inv(c, S(), own, 0) && CanAppend(c, S(), lba, page)
      modifies this, ssd, ssd.Repr
      ensures ssd.Valid() && own == old(own) && contents == old(contents)
      ensures S() == Append(c, old(S()), lba, page, bytes)
    {
      hide Inv, Ssd.Valid, LogOk, AfterWrite, Superseded, Shape;
      ghost var s := S();
      AppendReady(c, s, own, lba, page);
      SupersededInDrive(c, s, lba, page);
      var logBlock := logMap[lba];
      var numValid := ssd.GetNumValid(logBlock.address);
      var replaced := ReplacedPage(lba, page);
      logMap := logMap[lba := logBlock.(pages := logBlock.pages[page := numValid])];
      ssd.IssueWrite(PageAddr(logBlock.address, numValid), bytes, replaced);
    }

    method WriteToLog(lba: nat, page: nat, bytes: Bytes)
      requires Fixed() && Core() && lba < c.blocks && page < c.size
      requires lba in logMap && logMap[lba].address < c.blocks && S().blocks[logMap[lba].address].valid < c.size
      modifies this, ssd, ssd.Repr
      ensures Core() && contents == old(contents) && InUse(S()) == old(InUse(S()))
      ensures Shape(c, S()) && Shape(c, old(S()))
      ensures Live(c, S(), lba, page) == Some(bytes) && SameExcept(c, old(S()), S(), lba, page)
      ensures CanAppend(c, old(S()), lba, page) && S() == Append(c, old(S()), lba, page, bytes)
    {
      hide Inv, Ssd.Valid, LogOk, AfterWrite, Superseded, SameExcept, Live, InUse, CanAppend, Append, Shape;
      ghost var s := S();
      ShapeOf(c, s, own, 0);
      AppendReady(c, s, own, lba, page);
      WriteStep(c, s, own, lba, page, bytes);
      AppendPage(lba, page, bytes);
      ShapeOf(c, S(), own, 0);
    }

    // The host sees the written bytes at that page and every other page as it was.
    // `mid` is the state once a log block has been merged away, `ready` the one
    // with room for the page; each is the one before it if nothing was needed.
    method Write(lpn: nat, bytes: Bytes, r: nat) returns (ghost mid: State, ghost ready: State)
      requires Valid() && Lba(c, lpn) < c.blocks && HasRoom(c, S(), {Lba(c, lpn)})
      modifies this, dataList, bm, ssd, ssd.Repr
      ensures Valid() && contents == old(contents)[lpn := bytes]
      ensures InUse(S()) == old(InUse(S())) + {Lba(c, lpn)}
      ensures Prepared(c, old(S()), Lba(c, lpn), r, mid, ready) && CanAppend(c, ready, Lba(c, lpn), Offset(c, lpn))
      ensures S() == Append(c, ready, Lba(c, lpn), Offset(c, lpn), bytes)
    {
      hide Inv, SameContents, SameExcept, Represents, Ssd.Valid, HasRoom, Shape, InUse, Live, Prepared, CanAppend,
          Append;
      var lba, page := Lba(c, lpn), Offset(c, lpn);
      ghost var s := S();
      mid := PrepareLogBlock(lba, r);
      ready := S();
      RepresentsSame(c, s, ready, contents);
      WriteToLog(lba, page, bytes);
      contents := contents[lpn := bytes];
      RepresentsChange(c, ready, S(), lpn, old(contents), contents);
    }

    // Never-written pages, and pages whose target is INVALID, read physical page 0.
    method Read(lpn: nat) returns (bytes: Bytes)
      requires Valid() && Lba(c, lpn) < c.blocks
      ensures lpn in contents ==> bytes == contents[lpn]
    {
      hide Inv, Ssd.Valid, Live;
      var lookupBlock, page := Lba(c, lpn), Offset(c, lpn);
      TargetHoldsContent(c, S(), own, lookupBlock, page);
      var at := PageAddr(0, 0);
      if lookupBlock in logMap && logMap[lookupBlock].pages[page] != -1 {
        at := PageAddr(logMap[lookupBlock].address, logMap[lookupBlock].pages[page]);
      } else if dataList[lookupBlock] != -1 {
        at := PageAddr(dataList[lookupBlock], page);
      }
      var state := ssd.GetState(at);
      if state == INVALID {
        at := PageAddr(0, 0);
      }
      bytes := ssd.Read(at);
    }

    method TrimLog(lba: nat, page: nat)
      requires Fixed() && Core() && lba < c.blocks && page < c.size
      modifies this, dataList, bm, ssd, ssd.Repr
      ensures Core() && contents == old(contents) && InUse(S()) <= old(InUse(S()))
      ensures Shape(c, S()) && Shape(c, old(S())) && SameExcept(c, old(S()), S(), lba, page)
      ensures lba in logMap ==> page < |logMap[lba].pages| && logMap[lba].pages[page] == -1
      ensures Live(c, S(), lba, page) == None || S() == old(S())
      ensures LogTrimOutcome(c, old(S()), lba, page, S())
    {
      hide Inv, Ssd.Valid, Shape, SameExcept, SameContents, InUse, LogOk, Live;
      hide LogTrimOutcome, LogTrimmed, LogDropped;
      ghost var s := S();
      ShapeOf(c, s, own, 0);
      Held(c, s, own, lba, 0);
      NoLogTrim(c, s, lba, page);
      NothingDiffers(c, s, lba, page);
      if lba in logMap && logMap[lba].pages[page] != -1 {
        ghost var before := own;
        InvalidateLogged(lba, page);
        ghost var s1 := S();
        ShapeOf(c, s1, own, 0);
        Held(c, s1, own, lba, 0);
        var state := ssd.GetBlockState(logMap[lba].address);
        LogTrimmedOutcome(c, s, before, lba, page, state == INACTIVE);
        if state == INACTIVE {
          DropLogBlock(lba);
          ShapeOf(c, S(), own, 0);
          ExceptThenSame(c, s, s1, S(), lba, page);
        }
      }
    }

    method InvalidateLogged(lba: nat, page: nat)
      requires Fixed() && Core() && lba < c.blocks && page < c.size
      requires lba in logMap && page < |logMap[lba].pages| && logMap[lba].pages[page] != -1
      modifies this, ssd, ssd.Repr
      ensures Core() && contents == old(contents) && InUse(S()) == old(InUse(S()))
      ensures Shape(c, S()) && Shape(c, old(S())) && SameExcept(c, old(S()), S(), lba, page) &&
          Live(c, S(), lba, page) == None
      ensures logMap == old(logMap[lba := logMap[lba].(pages := logMap[lba].pages[page := -1])])
      ensures S().log[lba].address == old(logMap[lba].address) < c.blocks && 0 <= old(logMap[lba].pages[page]) < c.size
      ensures S() == LogTrimmed(c, old(S()), lba, page)
    {
      hide Inv, Ssd.Valid, SameExcept, InUse, LogOk, Live;
      ghost var s := S();
      ShapeOf(c, s, own, 0);
      TrimLogStep(c, s, own, lba, page);
      var logBlock := logMap[lba];
      ssd.Replace(PageAddr(logBlock.address, logBlock.pages[page]));
      logMap := logMap[lba := logBlock.(pages := logBlock.pages[page := -1])];
      assert S() == LogTrimmed(c, s, lba, page);
      ShapeOf(c, S(), own, 0);
    }

    method DropLogBlock(lba: nat)
      requires Fixed() && Core() && lba in logMap && lba < c.blocks && Shape(c, S()) && logMap[lba].address < c.blocks
      requires forall p :: 0 <= p < c.size ==> S().blocks[logMap[lba].address].pages[p].state == INVALID
      modifies this, bm, ssd, ssd.Repr
      ensures Core() && contents == old(contents) && InUse(S()) <= old(InUse(S()))
      ensures Shape(c, S()) && SameContents(c, old(S()), S()) && logMap == old(logMap) - {lba}
      ensures S() == LogDropped(c, old(S()), lba)
    {
      hide Inv, Ssd.Valid, SameContents, InUse;
      ghost var s := S();
      Held(c, s, own, lba, 0);
      DropLogStep(c, s, own, lba);
      var address := logMap[lba].address;
      logMap := logMap - {lba};
      bm.EraseAndInvalidate(address, LOG);
      own := own[address := Free];
      assert S() == LogDropped(c, s, lba);
      ShapeOf(c, S(), own, 0);
    }

    method TrimData(lba: nat, page: nat)
      requires Fixed() && Core() && lba < c.blocks && page < c.size && Shape(c, S())
      requires lba in logMap ==> page < |logMap[lba].pages| && logMap[lba].pages[page] == -1
      modifies this, dataList, bm, ssd, ssd.Repr
      ensures Core() && contents == old(contents) && InUse(S()) <= old(InUse(S()))
      ensures Shape(c, S()) && SameExcept(c, old(S()), S(), lba, page) && Live(c, S(), lba, page) == None
      ensures DataTrimOutcome(c, old(S()), lba, page, S())
    {
      hide Inv, Ssd.Valid, SameExcept, SameContents, InUse, LogOk;
      ghost var s := S();
      Held(c, s, own, lba, 0);
      NothingDiffers(c, s, lba, page);
      if dataList[lba] != -1 {
        TrimDataStep(c, s, own, lba, page);
        ssd.Replace(PageAddr(dataList[lba], page));
        assert S() == DataTrimmed(c, s, lba, page);
        ghost var s1 := S();
        var state := ssd.GetBlockState(dataList[lba]);
        DataTrimmedOutcome(c, s, lba, page, state == INACTIVE);
        if state == INACTIVE {
          DropDataBlock(lba);
          ExceptThenSame(c, s, s1, S(), lba, page);
        }
      }
    }

    method DropDataBlock(lba: nat)
      requires Fixed() && Core() && DataOk(c, S(), lba) && dataList[lba] != -1
      requires forall p :: 0 <= p < c.size ==> S().blocks[dataList[lba]].pages[p].state == INVALID
      modifies this, dataList, bm, ssd, ssd.Repr
      ensures Core() && contents == old(contents) && InUse(S()) <= old(InUse(S()))
      ensures Shape(c, S()) && SameContents(c, old(S()), S()) && logMap == old(logMap)
      ensures S() == DataDropped(c, old(S()), lba)
    {
      hide Inv, Ssd.Valid, SameContents, InUse;
      ghost var s := S();
      Held(c, s, own, lba, 0);
      DropDataStep(c, s, own, lba);
      var d := dataList[lba];
      dataList[lba] := -1;
      bm.EraseAndInvalidate(d, DATA);
      own := own[d := Free];
      assert S() == DataDropped(c, s, lba);
      ShapeOf(c, S(), own, 0);
    }

    // The host's page is forgotten; every other page is as it was.
    // `mid` is the state once the log has been seen to.
    method Trim(lpn: nat) returns (ghost mid: State)
      requires Valid() && Lba(c, lpn) < c.blocks
      modifies this, dataList, bm, ssd, ssd.Repr
      ensures Valid() && contents == old(contents) - {lpn}
      ensures InUse(S()) <= old(InUse(S()))
      ensures Shape(c, old(S())) && LogTrimOutcome(c, old(S()), Lba(c, lpn), Offset(c, lpn), mid)
      ensures Shape(c, mid) && DataTrimOutcome(c, mid, Lba(c, lpn), Offset(c, lpn), S())
    {
      hide Inv, Ssd.Valid, SameExcept, Represents, InUse, Shape, Live, LogTrimOutcome, DataTrimOutcome;
      var lba, page := Lba(c, lpn), Offset(c, lpn);
      ghost var s := S();
      TrimLog(lba, page);
      mid := S();
      TrimData(lba, page);
      ExceptTrans(c, s, mid, S(), lba, page);
      contents := contents - {lpn};
      RepresentsChange(c, s, S(), lpn, old(contents), contents);
    }

    // Any sequence of host requests, with any outcomes of random(): reads of
    // mapped pages return what a plain map would. The drive never runs out of
    // blocks as long as the logical blocks in use and those the requests
    // write, together with every log block, leave one block over.
    method Serve(requests: seq<Request>, ghost written: set<nat>) returns (replies: seq<Bytes>)
      requires Valid() && forall i :: 0 <= i < |requests| ==> Lba(c, requests[i].page) < c.blocks
      requires HasRoom(c, S(), written)
      requires forall i :: 0 <= i < |requests| && requests[i].Write? ==> Lba(c, requests[i].page) in written
      modifies this, dataList, bm, ssd, ssd.Repr
      ensures Valid() && contents == HostMap(old(contents), requests) && HasRoom(c, S(), written)
      ensures Answered(old(contents), requests, replies)
      decreases |requests|
    {
      hide Core, Represents, HasRoom, Answered, HostStep;
      if |requests| == 0 {
        replies := [];
        AnsweredNothing(contents);
        return;
      }
      var earlier, last := requests[..|requests| - 1], requests[|requests| - 1];
      replies := Serve(earlier, written);
      var reply := ServeOne(last, written);
      AnsweredMore(old(contents), earlier, replies, last, reply);
      assert requests == earlier + [last];
      replies := replies + [reply];
    }

    method ServeOne(request: Request, ghost written: set<nat>) returns (reply: Bytes)
      requires Valid() && Lba(c, request.page) < c.blocks && HasRoom(c, S(), written)
      requires request.Write? ==> Lba(c, request.page) in written
      modifies this, dataList, bm, ssd, ssd.Repr
      ensures Valid() && contents == HostStep(old(contents), request) && HasRoom(c, S(), written)
      ensures request.Read? && request.page in old(contents) ==> reply == old(contents)[request.page]
    {
      hide Inv, Ssd.Valid, Represents, InUse;
      ghost var s := S();
      reply := Unwritten;
      match request {
        case Read(lpn, _) =>
          reply := Read(lpn);
        case Write(lpn, bytes, moment) =>
          RoomMonotone(c, s, {Lba(c, lpn)}, s, written);
          ghost var mid, ready := Write(lpn, bytes, moment.random);
        case Trim(lpn, _) =>
          ghost var mid := Trim(lpn);
      }
      RoomMonotone(c, S(), written, s, written);
    }
  }

  lemma RoomMonotone(c: Config, s: State, also: set<nat>, s': State, also': set<nat>)
    requires HasRoom(c, s', also') && InUse(s) + also <= InUse(s') + also'
    ensures HasRoom(c, s, also)
  {
    SubsetSize(InUse(s) + also, InUse(s') + also');
  }

  // Some random number picks a log block exactly when it is the only one or not
  // the one for the greatest logical block.
  lemma CanBeEvictedIff(keys: set<nat>, k: nat)
    requires k in keys
    ensures (exists r: nat :: VictimIndex(r, |keys|) == Rank(keys, k)) <==>
        |keys| == 1 || exists x :: x in keys && x > k
  {
    hide VictimIndex;
    RankBelow(keys, k);
    if exists x :: x in keys && x > k {
      var x :| x in keys && x > k;
      var before := set y | y in keys && y < k;
      SubsetSize(before, keys - {k, x});
      VictimPlaces(Rank(keys, k), |keys|);
    } else if |keys| == 1 {
      VictimPlaces(0, |keys|);
    } else {
      forall r: nat ensures VictimIndex(r, |keys|) < |keys| - 1 {
        VictimPlaces(r, |keys|);
      }
    }
  }

  // The victim is the key just before the one drawn, or the first key when the
  // draw is the first or second.
  lemma VictimPrecedesDrawn(keys: set<nat>, r: nat, k: nat, drawn: nat)
    requires k in keys && drawn in keys && Rank(keys, k) == VictimIndex(r, |keys|) && Rank(keys, drawn) == r % |keys|
    ensures forall x :: x in keys && k < x ==> drawn <= x
    ensures drawn == k <==> IsSmallest(keys, drawn)
    ensures k <= drawn
  {
    RankOrder(keys, k, drawn);
    forall x | x in keys && k < x ensures drawn <= x {
      RankOrder(keys, k, x);
      RankOrder(keys, x, drawn);
    }
    if IsSmallest(keys, drawn) {
      RankOrder(keys, drawn, k);
      assert (set x | x in keys && x < drawn) == {};
    } else {
      var x :| x in keys && x < drawn;
      RankOrder(keys, x, drawn);
    }
  }

  lemma RankOrder(keys: set<nat>, a: nat, b: nat)
    requires a in keys && b in keys
    ensures a < b <==> Rank(keys, a) < Rank(keys, b)
  {
    var below := (x: nat) => set y | y in keys && y < x;
    if a < b {
      SubsetSize(below(a) + {a}, below(b));
    } else if b < a {
      SubsetSize(below(b) + {b}, below(a));
    }
  }

  // From a drive just powered on: any requests, any random numbers.
  method PowerOnAndServe(g: Geometry, span: nat, limit: nat, requests: seq<Request>, ghost written: set<nat>)
    returns (replies: seq<Bytes>)
    requires g.Positive() && 0 < span <= g.blockSize && limit > 0 && |written| + limit < g.Blocks()
    requires forall i :: 0 <= i < |requests| ==> requests[i].page / span < g.Blocks()
    requires forall i :: 0 <= i < |requests| && requests[i].Write? ==> requests[i].page / span in written
    ensures Answered(map[], requests, replies)
  {
    hide Answered, Inv, Ssd.Valid;
    var ssd := new Ssd(g);
    var ftl := new FtlImpl_Bast(ssd, span, limit);
    assert InUse(ftl.S()) + written == written;
    replies := ftl.Serve(requests, written);
  }
}
