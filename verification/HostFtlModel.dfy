// The append-only translation layer on the host (host_ftl/src), as a state
// machine on values. The simulator behind the socket is a store of bytes; its
// replies are inputs.
module HostFtlModel {
  import opened Flash

  const NUM_ZONES := 1024
  const ZONE_SIZE_PAGES := 64
  const PAGE_SIZE := 4096
  const ZONE_SIZE_BYTES := 262144
  const SECTOR_SIZE := 512
  const TOTAL_LOGICAL_SECTORS := NUM_ZONES * ZONE_SIZE_PAGES * PAGE_SIZE / SECTOR_SIZE
  const LOGICAL_PAGES := TOTAL_LOGICAL_SECTORS * SECTOR_SIZE / PAGE_SIZE
  const STORE_SIZE := NUM_ZONES * ZONE_SIZE_BYTES

  datatype Zone = Zone(writePointer: nat, isFull: bool)
  datatype PhysicalAddress = PhysicalAddress(zoneId: nat, pageOffset: nat)
  type Table = seq<Option<PhysicalAddress>>

  datatype State = State(zones: seq<Zone>, table: Table, current: nat, store: Bytes)

  datatype Error = InvalidInput | StorageFull | Refused
  datatype Result = Ok(buffer: Bytes) | Err(error: Error)

  // What the other side answers during one write: the code for the first
  // attempt, the outcome of a zone reset with the bytes it leaves in the zone,
  // and the code for the second attempt.
  datatype Replies = Replies(first: nat, resetOk: bool, wiped: Bytes, second: nat)

  // ---------- bytes ----------

  function Overlay(store: Bytes, from: nat, data: Bytes): (after: Bytes)
    requires from + |data| <= |store|
    ensures |after| == |store|
  {
    store[..from] + data + store[from + |data|..]
  }

  predicate PageFits(store: Bytes, from: nat) {
    from + PAGE_SIZE <= |store|
  }

  function PageAt(store: Bytes, from: nat): (page: Bytes)
    requires PageFits(store, from)
    ensures |page| == PAGE_SIZE
  {
    store[from..from + PAGE_SIZE]
  }

  lemma OverlayAt(store: Bytes, from: nat, data: Bytes, i: nat)
    requires from + |data| <= |store| && i < |store|
    ensures Overlay(store, from, data)[i] == if from <= i < from + |data| then data[i - from] else store[i]
  {}

  lemma OverlayPages(store: Bytes, from: nat, data: Bytes, other: nat)
    requires from + |data| <= |store| && PageFits(store, other)
    ensures other + PAGE_SIZE <= from || from + |data| <= other ==>
        PageAt(Overlay(store, from, data), other) == PageAt(store, other)
    ensures other == from && |data| == PAGE_SIZE ==> PageAt(Overlay(store, from, data), other) == data
  {
    hide Overlay;
    var after := Overlay(store, from, data);
    forall k | 0 <= k < PAGE_SIZE
      ensures PageAt(after, other)[k] == if from <= other + k < from + |data| then data[other + k - from]
          else PageAt(store, other)[k]
    {
      OverlayAt(store, from, data, other + k);
    }
    if other + PAGE_SIZE <= from || from + |data| <= other {
      assert PageAt(after, other) == PageAt(store, other);
    } else if other == from && |data| == PAGE_SIZE {
      assert PageAt(after, other) == data;
    }
  }

  function Offset(a: PhysicalAddress): nat {
    a.zoneId * ZONE_SIZE_BYTES + a.pageOffset * PAGE_SIZE
  }

  // ---------- steps ----------

  predicate Sized(s: State) {
    |s.zones| == NUM_ZONES && |s.table| == LOGICAL_PAGES && |s.store| == STORE_SIZE && s.current < NUM_ZONES
  }

  function ZoneStart(s: State, zone: nat): nat
    requires zone < |s.zones|
  {
    zone * ZONE_SIZE_BYTES + s.zones[zone].writePointer
  }

  predicate AppendSucceeds(s: State, zone: nat, data: Bytes, reply: nat)
    requires zone < |s.zones|
  {
    reply == 0 && ZoneStart(s, zone) + |data| <= |s.store|
  }

  // A refused append changes nothing on either side.
  function Append(s: State, zone: nat, data: Bytes, reply: nat): State
    requires zone < |s.zones|
  {
    if !AppendSucceeds(s, zone, data, reply) then s
    else
      var pointer := s.zones[zone].writePointer + |data|;
      s.(store := Overlay(s.store, ZoneStart(s, zone), data),
         zones := s.zones[zone := Zone(pointer, s.zones[zone].isFull || pointer >= ZONE_SIZE_BYTES)])
  }

  function Invalidated(table: Table, zone: nat): (after: Table)
    ensures |after| == |table|
  {
    seq(|table|, i requires 0 <= i < |table| => if table[i].Some? &&
      table[i].value.zoneId == zone then None else table[i])
  }

  function Reset(s: State, zone: nat, wiped: Bytes): State
    requires Sized(s) && zone < NUM_ZONES && |wiped| == ZONE_SIZE_BYTES
  {
    State(s.zones[zone := Zone(0, false)], Invalidated(s.table, zone), s.current,
          Overlay(s.store, zone * ZONE_SIZE_BYTES, wiped))
  }

  // The first zone from `from` on that still takes pages, or the number of zones.
  function FirstWritable(zones: seq<Zone>, from: nat): (zone: nat)
    requires from <= |zones|
    ensures from <= zone <= |zones|
    ensures zone < |zones| ==> !zones[zone].isFull
    ensures forall i :: from <= i < zone ==> zones[i].isFull
    decreases |zones| - from
  {
    if from < |zones| && zones[from].isFull then FirstWritable(zones, from + 1) else from
  }

  function Target(s: State): nat
    requires Sized(s)
  {
    FirstWritable(s.zones, s.current)
  }

  function PageOffset(s: State, zone: nat): nat
    requires zone < |s.zones|
  {
    s.zones[zone].writePointer / PAGE_SIZE
  }

  function Write(s: State, page: nat, data: Bytes, replies: Replies): (State, Result)
    requires Sized(s) && |replies.wiped| == ZONE_SIZE_BYTES
  {
    if page >= LOGICAL_PAGES then (s, Err(InvalidInput))
    else if Target(s) >= NUM_ZONES then (s, Err(StorageFull))
    else
      var zone := Target(s);
      var s1 := s.(current := zone);
      var entry := Some(PhysicalAddress(zone, PageOffset(s, zone)));
      if AppendSucceeds(s1, zone, data, replies.first) then
        var s2 := Append(s1, zone, data, replies.first);
        (s2.(table := s2.table[page := entry]), Ok(data))
      else if !replies.resetOk then (s1, Err(Refused))
      else
        var s2 := Reset(s1, zone, replies.wiped);
        var s3 := Append(s2, zone, data, replies.second);
        if AppendSucceeds(s2, zone, data, replies.second) then (s3.(table := s3.table[page := entry]), Ok(data))
        else (s3, Err(Refused))
  }

  predicate Mapped(s: State, page: nat) {
    page < |s.table| && s.table[page].Some?
  }

  // What a read returns; pages never written, or forgotten, read as zeros.
  function Content(s: State, page: nat): Bytes
    requires Mapped(s, page) ==> PageFits(s.store, Offset(s.table[page].value))
  {
    if Mapped(s, page) then PageAt(s.store, Offset(s.table[page].value)) else seq(PAGE_SIZE, _ => 0)
  }

  // ---------- invariant ----------

  ghost predicate ZonesOk(zones: seq<Zone>) {
    forall z :: 0 <= z < |zones| ==>
      && zones[z].writePointer % PAGE_SIZE == 0 && zones[z].writePointer <= ZONE_SIZE_BYTES
      && (zones[z].isFull <==> zones[z].writePointer == ZONE_SIZE_BYTES)
  }

  predicate Below(a: PhysicalAddress, zones: seq<Zone>) {
    a.zoneId < |zones| && a.pageOffset * PAGE_SIZE < zones[a.zoneId].writePointer
  }

  ghost predicate AllBelow(table: Table, zones: seq<Zone>) {
    forall i :: 0 <= i < |table| && table[i].Some? ==> Below(table[i].value, zones)
  }

  ghost predicate Injective(table: Table) {
    forall i, j :: 0 <= i < j < |table| && table[i].Some? && table[j].Some? ==> table[i] != table[j]
  }

  // Mapped pages lie below their zone's write pointer and no two share a page.
  ghost predicate Inv(s: State) {
    Sized(s) && ZonesOk(s.zones) && AllBelow(s.table, s.zones) && Injective(s.table)
  }

  lemma BelowFits(s: State, a: PhysicalAddress)
    requires Sized(s) && ZonesOk(s.zones) && Below(a, s.zones)
    ensures PageFits(s.store, Offset(a)) && a.pageOffset < ZONE_SIZE_PAGES
  {}

  // Two pages of the store either coincide or do not touch.
  lemma PagesApart(a: PhysicalAddress, b: PhysicalAddress)
    requires a.pageOffset < ZONE_SIZE_PAGES && b.pageOffset < ZONE_SIZE_PAGES
    ensures a != b ==> Offset(a) + PAGE_SIZE <= Offset(b) || Offset(b) + PAGE_SIZE <= Offset(a)
  {}

  ghost predicate Readable(s: State, page: nat) {
    Mapped(s, page) ==> PageFits(s.store, Offset(s.table[page].value))
  }

  lemma AllReadable(s: State, page: nat)
    requires Inv(s)
    ensures Readable(s, page)
  {
    if Mapped(s, page) {
      BelowFits(s, s.table[page].value);
    }
  }

  lemma StartsEmpty(s: State)
    requires Sized(s) && (forall z :: 0 <= z < NUM_ZONES ==> s.zones[z] == Zone(0, false))
    requires forall i :: 0 <= i < LOGICAL_PAGES ==> s.table[i] == None
    ensures Inv(s)
  {}

  // ---------- a write that is accepted at once ----------

  // The page an append goes to.
  function AppendAddress(s: State): PhysicalAddress
    requires Sized(s) && Target(s) < NUM_ZONES
  {
    PhysicalAddress(Target(s), PageOffset(s, Target(s)))
  }

  // It lies inside its zone and no logical page is mapped to it.
  lemma FreshAppend(s: State)
    requires Inv(s) && Target(s) < NUM_ZONES
    ensures var a := AppendAddress(s);
            && Offset(a) == ZoneStart(s, Target(s)) && PageFits(s.store, Offset(a)) && a.pageOffset < ZONE_SIZE_PAGES
            && Some(a) !in s.table
  {
    var a := AppendAddress(s);
    assert s.zones[a.zoneId].writePointer < ZONE_SIZE_BYTES;
  }

  lemma MapFresh(table: Table, zones: seq<Zone>, page: nat, a: PhysicalAddress)
    requires AllBelow(table, zones) && Injective(table) && Some(a) !in table && page < |table| && Below(a, zones)
    ensures AllBelow(table[page := Some(a)], zones) && Injective(table[page := Some(a)])
  {
    var table' := table[page := Some(a)];
    forall i, j | 0 <= i < j < |table| && table'[i].Some? && table'[j].Some?
      ensures table'[i] != table'[j]
    {
      assert table[i] in table && table[j] in table;
    }
  }

  lemma AcceptedWriteStep(s: State, page: nat, data: Bytes, replies: Replies)
    requires Inv(s) && page < LOGICAL_PAGES && Target(s) < NUM_ZONES && |replies.wiped| == ZONE_SIZE_BYTES
    requires |data| == PAGE_SIZE && replies.first == 0
    ensures var a := AppendAddress(s); var (s', result) := Write(s, page, data, replies);
            && PageFits(s.store, Offset(a)) && result == Ok(data)
            && s' == State(s.zones[a.zoneId := Zone(s.zones[a.zoneId].writePointer + PAGE_SIZE,
              s.zones[a.zoneId].writePointer + PAGE_SIZE >= ZONE_SIZE_BYTES)],
                           s.table[page := Some(a)], a.zoneId, Overlay(s.store, Offset(a), data))
  {
    FreshAppend(s);
  }

  // It lands on a page nothing was mapped to, is read back, and moves nothing else.
  lemma AcceptedWrite(s: State, page: nat, data: Bytes, replies: Replies)
    requires Inv(s) && page < LOGICAL_PAGES && Target(s) < NUM_ZONES && |replies.wiped| == ZONE_SIZE_BYTES
    requires |data| == PAGE_SIZE && replies.first == 0
    ensures var s' := Write(s, page, data, replies).0;
            && Inv(s') && Some(AppendAddress(s)) !in s.table
            && s'.table == s.table[page := Some(AppendAddress(s))]
            && Readable(s', page) && Content(s', page) == data
  {
    hide Write, Overlay;
    AcceptedWriteStep(s, page, data, replies);
    FreshAppend(s);
    var a, s' := AppendAddress(s), Write(s, page, data, replies).0;
    assert ZonesOk(s'.zones);
    assert AllBelow(s.table, s'.zones);
    MapFresh(s.table, s'.zones, page, a);
    AllReadable(s', page);
    OverlayPages(s.store, Offset(a), data, Offset(a));
  }

  lemma OthersKeepContent(s: State, page: nat, data: Bytes, replies: Replies, other: nat)
    requires Inv(s) && page < LOGICAL_PAGES && Target(s) < NUM_ZONES && |replies.wiped| == ZONE_SIZE_BYTES
    requires |data| == PAGE_SIZE && replies.first == 0 && other != page
    ensures var s' := Write(s, page, data, replies).0;
            Readable(s, other) && Readable(s', other) && Mapped(s', other) == Mapped(s, other) &&
              Content(s', other) == Content(s, other)
  {
    hide Write, Overlay;
    AcceptedWriteStep(s, page, data, replies);
    FreshAppend(s);
    AllReadable(s, other);
    if Mapped(s, other) {
      var b := s.table[other].value;
      assert s.table[other] in s.table;
      BelowFits(s, b);
      PagesApart(AppendAddress(s), b);
      OverlayPages(s.store, Offset(AppendAddress(s)), data, Offset(b));
    }
  }

  // With a buffer of another size the page written does not read back.
  lemma ReadBackNeedsWholePage(s: State, page: nat, data: Bytes, replies: Replies)
    requires Inv(s) && page < LOGICAL_PAGES && Target(s) < NUM_ZONES && |replies.wiped| == ZONE_SIZE_BYTES
    requires AppendSucceeds(s, Target(s), data, replies.first)
    ensures var s' := Write(s, page, data, replies).0;
            Readable(s', page) && (Content(s', page) == data <==> |data| == PAGE_SIZE)
  {
    FreshAppend(s);
    var a, s' := AppendAddress(s), Write(s, page, data, replies).0;
    assert s'.store == Overlay(s.store, Offset(a), data) && s'.table == s.table[page := Some(a)];
    OverlayPages(s.store, Offset(a), data, Offset(a));
  }

  // ---------- zone reset ----------

  // A reset forgets exactly the pages mapped into its zone.
  lemma ResetForgetsZone(s: State, zone: nat, wiped: Bytes, page: nat)
    requires Inv(s) && zone < NUM_ZONES && |wiped| == ZONE_SIZE_BYTES && page < LOGICAL_PAGES
    ensures var s' := Reset(s, zone, wiped);
            && Readable(s, page) && Readable(s', page)
            && (Mapped(s', page) <==> Mapped(s, page) && s.table[page].value.zoneId != zone)
            && (Mapped(s', page) ==> Content(s', page) == Content(s, page))
  {
    hide Overlay;
    AllReadable(s, page);
    if Mapped(s, page) && s.table[page].value.zoneId != zone {
      BelowFits(s, s.table[page].value);
      OverlayPages(s.store, zone * ZONE_SIZE_BYTES, wiped, Offset(s.table[page].value));
    }
  }

  lemma ResetKeepsInv(s: State, zone: nat, wiped: Bytes)
    requires Inv(s) && zone < NUM_ZONES && |wiped| == ZONE_SIZE_BYTES
    ensures Inv(Reset(s, zone, wiped))
  {
    hide Overlay;
    var s' := Reset(s, zone, wiped);
    forall i | 0 <= i < |s'.table| && s'.table[i].Some?
      ensures Below(s'.table[i].value, s'.zones)
    {
      assert Below(s.table[i].value, s.zones);
    }
  }

  // ---------- a write that is refused, then accepted after a reset ----------

  predicate Retried(s: State, data: Bytes, replies: Replies)
    requires Sized(s) && Target(s) < NUM_ZONES
  {
    |data| == PAGE_SIZE && |replies.wiped| == ZONE_SIZE_BYTES && replies.first != 0 && replies.resetOk &&
      replies.second == 0
  }

  lemma RetriedWriteStep(s: State, page: nat, data: Bytes, replies: Replies)
    requires Inv(s) && page < LOGICAL_PAGES && Target(s) < NUM_ZONES && Retried(s, data, replies)
    ensures var zone := Target(s); var s1 := Reset(s, zone, replies.wiped); var (s', result) :=
        Write(s, page, data, replies);
            && zone * ZONE_SIZE_BYTES + PAGE_SIZE <= |s1.store| && result == Ok(data)
            && s' == State(s1.zones[zone := Zone(PAGE_SIZE, false)], s1.table[page := Some(AppendAddress(s))], zone,
                           Overlay(s1.store, zone * ZONE_SIZE_BYTES, data))
  {
    hide Overlay;
  }

  // The retry appends at the start of the zone but records the offset computed
  // before the reset: the page is mapped below the write pointer exactly when
  // the zone was empty to begin with.
  lemma RetryKeepsInvIff(s: State, page: nat, data: Bytes, replies: Replies)
    requires Inv(s) && page < LOGICAL_PAGES && Target(s) < NUM_ZONES && Retried(s, data, replies)
    ensures Inv(Write(s, page, data, replies).0) <==> PageOffset(s, Target(s)) == 0
  {
    hide Write, Overlay, Reset;
    RetriedWriteStep(s, page, data, replies);
    ResetKeepsInv(s, Target(s), replies.wiped);
    RetryMaps(s, page, data, replies);
  }

  lemma RetryMaps(s: State, page: nat, data: Bytes, replies: Replies)
    requires Inv(s) && page < LOGICAL_PAGES && Target(s) < NUM_ZONES && Retried(s, data, replies)
    ensures var s1, a := Reset(s, Target(s), replies.wiped), AppendAddress(s);
            var zones := s1.zones[a.zoneId := Zone(PAGE_SIZE, false)];
            ZonesOk(zones) && Injective(s1.table[page := Some(a)]) &&
              (AllBelow(s1.table[page := Some(a)], zones) <==> a.pageOffset == 0)
  {
    hide Overlay;
    var s1, a := Reset(s, Target(s), replies.wiped), AppendAddress(s);
    var zones := s1.zones[a.zoneId := Zone(PAGE_SIZE, false)];
    ResetKeepsInv(s, Target(s), replies.wiped);
    forall i | 0 <= i < |s1.table| && s1.table[i].Some?
      ensures Below(s1.table[i].value, zones) && s1.table[i] != Some(a)
    {
      assert Below(s1.table[i].value, s1.zones);
    }
    assert s1.table[page := Some(a)][page].value == a;
    if a.pageOffset > 0 {
      assert !Below(a, zones);
    }
  }

  // Whatever the offset, the retry forgets every other page of the zone, and
  // pages of other zones keep their content.
  lemma RetryForgetsZone(s: State, page: nat, data: Bytes, replies: Replies, other: nat)
    requires Inv(s) && page < LOGICAL_PAGES && Target(s) < NUM_ZONES && Retried(s, data, replies)
    requires other < LOGICAL_PAGES && other != page
    ensures var s' := Write(s, page, data, replies).0;
            && Readable(s, other) && Readable(s', other)
            && (Mapped(s', other) <==> Mapped(s, other) && s.table[other].value.zoneId != Target(s))
            && (Mapped(s', other) ==> Content(s', other) == Content(s, other))
  {
    var zone, s', s1 := Target(s), Write(s, page, data, replies).0, Reset(s, Target(s), replies.wiped);
    assert Sized(s1);
    hide Write, Overlay, Reset;
    RetriedWriteStep(s, page, data, replies);
    ResetForgetsZone(s, zone, replies.wiped, other);
    if Mapped(s', other) {
      ResetKeepsInv(s, zone, replies.wiped);
      var b := s1.table[other].value;
      assert Mapped(s1, other) && b.zoneId != zone by { ResetMapsElsewhere(s, zone, replies.wiped, other); }
      BelowFits(s1, b);
      PagesApart(PhysicalAddress(zone, 0), b);
      OverlayPages(s1.store, zone * ZONE_SIZE_BYTES, data, Offset(b));
    }
  }

  lemma ResetMapsElsewhere(s: State, zone: nat, wiped: Bytes, page: nat)
    requires Sized(s) && zone < NUM_ZONES && |wiped| == ZONE_SIZE_BYTES && Mapped(Reset(s, zone, wiped), page)
    ensures Reset(s, zone, wiped).table[page].value.zoneId != zone
  {}

  // So in an empty zone it loses nothing, and the page reads back.
  lemma RetryInEmptyZone(s: State, page: nat, data: Bytes, replies: Replies, other: nat)
    requires Inv(s) && page < LOGICAL_PAGES && Target(s) < NUM_ZONES && Retried(s, data, replies)
    requires PageOffset(s, Target(s)) == 0 && other < LOGICAL_PAGES
    ensures var s' := Write(s, page, data, replies).0;
            && Readable(s, other) && Readable(s', other)
            && Content(s', other) == (if other == page then data else Content(s, other))
  {
    var zone, s', s1 := Target(s), Write(s, page, data, replies).0, Reset(s, Target(s), replies.wiped);
    assert Sized(s1) && s.zones[zone].writePointer == 0;
    hide Write, Overlay, Reset;
    AllReadable(s, other);
    if other == page {
      RetriedWriteStep(s, page, data, replies);
      OverlayPages(s1.store, zone * ZONE_SIZE_BYTES, data, zone * ZONE_SIZE_BYTES);
    } else {
      RetryForgetsZone(s, page, data, replies, other);
      if Mapped(s, other) {
        assert Below(s.table[other].value, s.zones);
      }
    }
  }

  // ---------- every outcome of a write ----------

  // Zone `zone` is the one a write goes to: the first from the current one on
  // that is not full.
  predicate WritesTo(s: State, zone: nat)
    requires Sized(s)
  {
    s.current <= zone < NUM_ZONES && !s.zones[zone].isFull && forall z :: s.current <= z < zone ==> s.zones[z].isFull
  }

  predicate AllFull(s: State)
    requires Sized(s)
  {
    forall z :: s.current <= z < NUM_ZONES ==> s.zones[z].isFull
  }

  // The append to the zone as it is, and the one after the zone has been reset.
  predicate FirstLands(s: State, zone: nat, data: Bytes, replies: Replies)
    requires Sized(s) && zone < NUM_ZONES
  {
    replies.first == 0 && zone * ZONE_SIZE_BYTES + s.zones[zone].writePointer + |data| <= STORE_SIZE
  }

  predicate SecondLands(zone: nat, data: Bytes, replies: Replies) {
    replies.resetOk && replies.second == 0 && zone * ZONE_SIZE_BYTES + |data| <= STORE_SIZE
  }

  predicate LandsIn(s: State, zone: nat, data: Bytes, replies: Replies)
    requires Sized(s)
  {
    WritesTo(s, zone) && (FirstLands(s, zone, data, replies) || SecondLands(zone, data, replies))
  }

  lemma TargetIs(s: State, zone: nat)
    requires Sized(s)
    ensures WritesTo(s, zone) <==> zone == Target(s) < NUM_ZONES
    ensures AllFull(s) <==> Target(s) == NUM_ZONES
  {}

  // Success and the three errors, for every buffer and every reply.
  lemma WriteSucceedsIff(s: State, page: nat, data: Bytes, replies: Replies)
    requires Sized(s) && |replies.wiped| == ZONE_SIZE_BYTES
    ensures var result := Write(s, page, data, replies).1;
            && (result.Ok? <==> page < LOGICAL_PAGES && exists zone :: LandsIn(s, zone, data, replies))
            && (result.Ok? ==> result.buffer == data)
            && (result == Err(InvalidInput) <==> page >= LOGICAL_PAGES)
            && (result == Err(StorageFull) <==> page < LOGICAL_PAGES && AllFull(s))
  {
    TargetIs(s, Target(s));
    forall zone | WritesTo(s, zone) ensures zone == Target(s) {
      TargetIs(s, zone);
    }
    assert Write(s, page, data, replies).1.Ok? ==> LandsIn(s, Target(s), data, replies);
    hide Overlay, FirstWritable;
  }

  // What each outcome leaves behind, when the write has a zone to go to: the
  // page stored where the pointer was; nothing at all; the zone reset, with or
  // without the page at its start.
  lemma WriteLeaves(s: State, page: nat, data: Bytes, replies: Replies, zone: nat)
    requires Sized(s) && |replies.wiped| == ZONE_SIZE_BYTES && page < LOGICAL_PAGES && WritesTo(s, zone)
    ensures var s', pointer := Write(s, page, data, replies).0, s.zones[zone].writePointer;
            var entry := Some(PhysicalAddress(zone, pointer / PAGE_SIZE));
            && Sized(s') && s'.current == zone &&
              (forall z :: 0 <= z < NUM_ZONES && z != zone ==> s'.zones[z] == s.zones[z])
            && if FirstLands(s, zone, data, replies) then
                 && s'.table == s.table[page := entry] && s'.zones[zone].writePointer == pointer + |data|
                 && (s'.zones[zone].isFull <==> pointer + |data| >= ZONE_SIZE_BYTES)
               else if !replies.resetOk then s' == s.(current := zone)
               else if SecondLands(zone, data, replies) then
                 && s'.table == Invalidated(s.table, zone)[page := entry] && s'.zones[zone].writePointer == |data|
                 && (s'.zones[zone].isFull <==> |data| >= ZONE_SIZE_BYTES)
               else s'.table == Invalidated(s.table, zone) && s'.zones[zone] == Zone(0, false)
  {
    TargetIs(s, zone);
    hide Overlay, Invalidated, FirstWritable;
  }

  // Byte by byte: an append that lands puts the data where its zone's pointer
  // is, after a reset at the zone's start; a reset leaves what the server wiped.
  lemma WriteStores(s: State, page: nat, data: Bytes, replies: Replies, zone: nat, i: nat)
    requires Sized(s) && |replies.wiped| == ZONE_SIZE_BYTES && page < LOGICAL_PAGES && WritesTo(s, zone) &&
        i < STORE_SIZE
    ensures var store, start := Write(s, page, data, replies).0.store, zone * ZONE_SIZE_BYTES;
            var at := start + s.zones[zone].writePointer;
            && |store| == STORE_SIZE
            && store[i] ==
                 (if FirstLands(s, zone, data, replies) then if at <= i < at + |data| then data[i - at] else s.store[i]
                  else if !replies.resetOk then s.store[i]
                  else if SecondLands(zone, data, replies) && start <= i < start + |data| then data[i - start]
                  else if start <= i < start + ZONE_SIZE_BYTES then replies.wiped[i - start]
                  else s.store[i])
  {
    TargetIs(s, zone);
    var start := zone * ZONE_SIZE_BYTES;
    OverlayAt(s.store, start, replies.wiped, i);
    if FirstLands(s, zone, data, replies) {
      OverlayAt(s.store, start + s.zones[zone].writePointer, data, i);
    } else if SecondLands(zone, data, replies) {
      OverlayAt(Overlay(s.store, start, replies.wiped), start, data, i);
    }
    hide Overlay, Invalidated, FirstWritable;
  }

  // A failed write maps nothing that was not mapped before.
  lemma FailedWriteMapsNothing(s: State, page: nat, data: Bytes, replies: Replies, other: nat)
    requires Sized(s) && |replies.wiped| == ZONE_SIZE_BYTES && Write(s, page, data, replies).1.Err?
    ensures var s' := Write(s, page, data, replies).0;
            Mapped(s', other) ==> Mapped(s, other) && s'.table[other] == s.table[other]
  {
    hide Overlay, FirstWritable;
  }

  // ---------- runs ----------

  datatype Operation = WritePage(page: nat, data: Bytes) | ResetZone(zone: nat, wiped: Bytes)

  predicate Fits(op: Operation) {
    match op
    case WritePage(_, data) => |data| == PAGE_SIZE
    case ResetZone(zone, wiped) => zone < NUM_ZONES && |wiped| == ZONE_SIZE_BYTES
  }

  // Replies of a server that never refuses.
  function NoErrors(): Replies {
    Replies(0, true, seq(ZONE_SIZE_BYTES, _ => 0), 0)
  }

  function Step(s: State, op: Operation): State
    requires Sized(s) && Fits(op)
  {
    match op
    case WritePage(page, data) => Write(s, page, data, NoErrors()).0
    case ResetZone(zone, wiped) => Reset(s, zone, wiped)
  }

  function PagesIn(s: State, zone: nat): set<nat> {
    set page | 0 <= page < |s.table| && s.table[page].Some? && s.table[page].value.zoneId == zone
  }

  // The same on a plain map: a write with room sets one key, a reset removes
  // the keys that live in the zone.
  function MapStep(m: map<nat, Bytes>, s: State, op: Operation): map<nat, Bytes>
    requires Sized(s)
  {
    match op
    case WritePage(page, data) => if page < LOGICAL_PAGES && Target(s) < NUM_ZONES then m[page := data] else m
    case ResetZone(zone, _) => m - PagesIn(s, zone)
  }

  ghost predicate Represents(s: State, m: map<nat, Bytes>)
    requires Sized(s)
  {
    && (forall page :: page in m <==> Mapped(s, page))
    && (forall page :: page in m ==> Readable(s, page) && Content(s, page) == m[page])
  }

  lemma WriteRefinesMap(s: State, m: map<nat, Bytes>, page: nat, data: Bytes)
    requires Inv(s) && Represents(s, m) && |data| == PAGE_SIZE && page < LOGICAL_PAGES && Target(s) < NUM_ZONES
    ensures Represents(Write(s, page, data, NoErrors()).0, m[page := data])
  {
    var s' := Write(s, page, data, NoErrors()).0;
    AcceptedWrite(s, page, data, NoErrors());
    assert Mapped(s', page);
    hide Write, Content, Inv, Readable, Mapped;
    forall other | other != page
      ensures Readable(s', other) && Mapped(s', other) == Mapped(s, other)
      ensures Readable(s, other) && Content(s', other) == Content(s, other)
    {
      OthersKeepContent(s, page, data, NoErrors(), other);
    }
  }

  lemma ResetRefinesPage(s: State, m: map<nat, Bytes>, zone: nat, wiped: Bytes, page: nat)
    requires Inv(s) && Represents(s, m) && zone < NUM_ZONES && |wiped| == ZONE_SIZE_BYTES
    ensures page in m - PagesIn(s, zone) <==> Mapped(Reset(s, zone, wiped), page)
    ensures Mapped(Reset(s, zone, wiped), page) ==>
      Readable(Reset(s, zone, wiped), page) && Content(Reset(s, zone, wiped), page) == m[page]
  {
    if page < LOGICAL_PAGES {
      ResetForgetsZone(s, zone, wiped, page);
      assert page in m <==> Mapped(s, page);
      hide Reset, Content, Inv, Readable;
    }
  }

  lemma ResetRefinesMap(s: State, m: map<nat, Bytes>, zone: nat, wiped: Bytes)
    requires Inv(s) && Represents(s, m) && zone < NUM_ZONES && |wiped| == ZONE_SIZE_BYTES
    ensures Represents(Reset(s, zone, wiped), m - PagesIn(s, zone))
  {
    var s' := Reset(s, zone, wiped);
    hide Reset, Content, Inv, Readable, Mapped, PagesIn;
    forall page: nat
      ensures page in m - PagesIn(s, zone) <==> Mapped(s', page)
      ensures Mapped(s', page) ==> Readable(s', page) && Content(s', page) == m[page]
    {
      ResetRefinesPage(s, m, zone, wiped, page);
    }
  }

  lemma StepRefinesMap(s: State, m: map<nat, Bytes>, op: Operation)
    requires Inv(s) && Represents(s, m) && Fits(op)
    ensures Inv(Step(s, op)) && Represents(Step(s, op), MapStep(m, s, op))
  {
    match op
    case WritePage(page, data) =>
      assert !(page < LOGICAL_PAGES && Target(s) < NUM_ZONES) ==> Step(s, op) == s;
      hide Represents, Inv, Write;
      if page < LOGICAL_PAGES && Target(s) < NUM_ZONES {
        AcceptedWrite(s, page, data, NoErrors());
        WriteRefinesMap(s, m, page, data);
      }
    case ResetZone(zone, wiped) =>
      ResetKeepsInv(s, zone, wiped);
      ResetRefinesMap(s, m, zone, wiped);
      hide Represents, Inv, Reset;
  }

  function Run(s: State, ops: seq<Operation>): State
    requires Sized(s) && forall i :: 0 <= i < |ops| ==> Fits(ops[i])
    ensures Sized(Run(s, ops))
  {
    if |ops| == 0 then s else Step(Run(s, ops[..|ops| - 1]), ops[|ops| - 1])
  }

  function MapRun(m: map<nat, Bytes>, s: State, ops: seq<Operation>): map<nat, Bytes>
    requires Sized(s) && forall i :: 0 <= i < |ops| ==> Fits(ops[i])
  {
    if |ops| == 0 then m
    else MapStep(MapRun(m, s, ops[..|ops| - 1]), Run(s, ops[..|ops| - 1]), ops[|ops| - 1])
  }

  // Every run of writes and resets without refusals is a run of the plain map.
  lemma {:induction false} RunRefinesMap(s: State, m: map<nat, Bytes>, ops: seq<Operation>)
    requires Inv(s) && Represents(s, m) && forall i :: 0 <= i < |ops| ==> Fits(ops[i])
    ensures Inv(Run(s, ops)) && Represents(Run(s, ops), MapRun(m, s, ops))
  {
    if |ops| > 0 {
      var front := ops[..|ops| - 1];
      RunRefinesMap(s, m, front);
      StepRefinesMap(Run(s, front), MapRun(m, s, front), ops[|ops| - 1]);
    }
  }
}
