// The bus channel scheduler (ssd_channel.cpp): a first-fit allocator of time
// slots over a table that forgets slots as they pass. Times are exact reals.
module BusChannel {

  datatype LockTimes = LockTimes(lock: real, unlock: real)

  predicate Disjoint(a: LockTimes, b: LockTimes) {
    a.unlock <= b.lock || b.unlock <= a.lock
  }

  ghost predicate Apart(slots: seq<LockTimes>) {
    forall i, j :: 0 <= i < j < |slots| ==> Disjoint(slots[i], slots[j])
  }

  ghost predicate Lasting(slots: seq<LockTimes>) {
    forall i :: 0 <= i < |slots| ==> slots[i].lock < slots[i].unlock
  }

  ghost predicate SortedByLock(slots: seq<LockTimes>) {
    forall i, j :: 0 <= i < j < |slots| ==> slots[i].lock <= slots[j].lock
  }

  // A slot of the given duration could start at `time`.
  ghost predicate Fits(slots: seq<LockTimes>, time: real, duration: real) {
    forall i :: 0 <= i < |slots| ==> Disjoint(slots[i], LockTimes(time, time + duration))
  }

  // The first moment from `startTime` on at which the slot fits.
  ghost predicate Earliest(slots: seq<LockTimes>, startTime: real, duration: real, time: real) {
    && time >= startTime && Fits(slots, time, duration)
    && forall t :: startTime <= t < time ==> !Fits(slots, t, duration)
  }

  // ---------- the slot first fit picks ----------

  ghost predicate Proper(slots: seq<LockTimes>) {
    forall i :: 0 <= i < |slots| ==> slots[i].lock <= slots[i].unlock
  }

  // No slot of length zero starts where a longer one does.
  ghost predicate Untied(slots: seq<LockTimes>) {
    forall x, y :: x in slots && y in slots && x.lock == y.lock ==> x == y
  }

  ghost predicate Chained(slots: seq<LockTimes>) {
    forall i, j :: 0 <= i < j < |slots| ==> slots[i].unlock <= slots[j].lock
  }

  lemma LastingStartApart(slots: seq<LockTimes>, i: nat, j: nat)
    requires Apart(slots) && Lasting(slots) && i < j < |slots|
    ensures slots[i].lock != slots[j].lock
  {
    assert Disjoint(slots[i], slots[j]);
  }

  // Slots of positive length that do not overlap are never tied.
  lemma LastingUntied(slots: seq<LockTimes>)
    requires Apart(slots) && Lasting(slots)
    ensures Untied(slots)
  {
    forall i, j | 0 <= i < j < |slots| ensures slots[i].lock != slots[j].lock {
      LastingStartApart(slots, i, j);
    }
  }

  lemma SortedChained(slots: seq<LockTimes>)
    requires SortedByLock(slots) && Apart(slots) && Proper(slots) && Untied(slots)
    ensures Chained(slots)
  {
    forall i, j | 0 <= i < j < |slots| ensures slots[i].unlock <= slots[j].lock {
      assert Disjoint(slots[i], slots[j]) && slots[i] in slots && slots[j] in slots;
    }
  }

  // The slot, from `it` on, whose end is the first with a long enough gap.
  function Gap(slots: seq<LockTimes>, startTime: real, duration: real, it: nat): (at: nat)
    requires it < |slots|
    ensures it <= at < |slots|
    decreases |slots| - it
  {
    if it + 1 == |slots| then it
    else if slots[it].unlock >= startTime && slots[it + 1].lock - slots[it].unlock >= duration then it
    else Gap(slots, startTime, duration, it + 1)
  }

  predicate StartsBefore(slots: seq<LockTimes>, startTime: real, duration: real) {
    |slots| == 0 || (slots[0].lock > startTime && slots[0].lock - startTime >= duration)
  }

  function Scheduled(slots: seq<LockTimes>, startTime: real, duration: real): real {
    if StartsBefore(slots, startTime, duration) then startTime
    else slots[Gap(slots, startTime, duration, 0)].unlock
  }

  lemma {:induction false} GapIsFirst(slots: seq<LockTimes>, startTime: real, duration: real, it: nat)
    requires it < |slots| && forall i :: 0 <= i < |slots| ==> slots[i].unlock > startTime
    ensures var at := Gap(slots, startTime, duration, it);
            && (at + 1 < |slots| ==> slots[at + 1].lock - slots[at].unlock >= duration)
            && forall q :: it <= q < at ==> slots[q + 1].lock - slots[q].unlock < duration
    decreases |slots| - it
  {
    if Gap(slots, startTime, duration, it) != it {
      GapIsFirst(slots, startTime, duration, it + 1);
    }
  }

  // On any sorted table the slot picked is free exactly when no slot before the
  // one it follows ends later.
  lemma ScheduledFitsIff(slots: seq<LockTimes>, startTime: real, duration: real)
    requires SortedByLock(slots) && Proper(slots) && duration > 0.0
    requires forall i :: 0 <= i < |slots| ==> slots[i].unlock > startTime
    ensures Fits(slots, Scheduled(slots, startTime, duration), duration) <==>
              (StartsBefore(slots, startTime, duration) ||
                forall i :: 0 <= i < Gap(slots, startTime, duration, 0) ==>
                  slots[i].unlock <= slots[Gap(slots, startTime, duration, 0)].unlock)
  {
    if !StartsBefore(slots, startTime, duration) {
      GapIsFirst(slots, startTime, duration, 0);
      var at, time := Gap(slots, startTime, duration, 0), Scheduled(slots, startTime, duration);
      forall i | 0 <= i < |slots|
        ensures Disjoint(slots[i], LockTimes(time, time + duration)) <==> i >= at || slots[i].unlock <= slots[at].unlock
      {
        if i > at {
          assert slots[at + 1].lock <= slots[i].lock;
        }
      }
    }
  }

  // Until the end of a slot up to the one picked there is no room.
  lemma {:induction false} NoneSooner(slots: seq<LockTimes>, startTime: real, duration: real, q: nat, time: real)
    requires Chained(slots) && Proper(slots) && duration > 0.0
    requires forall i :: 0 <= i < |slots| ==> slots[i].unlock > startTime
    requires !StartsBefore(slots, startTime, duration) && q <= Gap(slots, startTime, duration, 0)
    requires startTime <= time < slots[q].unlock
    ensures !Fits(slots, time, duration)
  {
    if q == 0 {
      assert !Disjoint(slots[0], LockTimes(time, time + duration));
    } else if time < slots[q - 1].unlock {
      NoneSooner(slots, startTime, duration, q - 1, time);
    } else {
      GapIsFirst(slots, startTime, duration, 0);
      assert slots[(q - 1) + 1].lock - slots[q - 1].unlock < duration;
      assert !Disjoint(slots[q], LockTimes(time, time + duration));
    }
  }

  lemma ScheduledFits(slots: seq<LockTimes>, startTime: real, duration: real)
    requires Chained(slots) && Proper(slots) && duration >= 0.0
    requires forall i :: 0 <= i < |slots| ==> slots[i].unlock > startTime
    ensures Scheduled(slots, startTime, duration) >= startTime
    ensures Fits(slots, Scheduled(slots, startTime, duration), duration)
  {
    var time := Scheduled(slots, startTime, duration);
    if StartsBefore(slots, startTime, duration) {
      forall i | 0 <= i < |slots| ensures Disjoint(slots[i], LockTimes(time, time + duration)) {}
    } else {
      GapIsFirst(slots, startTime, duration, 0);
      var at := Gap(slots, startTime, duration, 0);
      forall i | 0 <= i < |slots| ensures Disjoint(slots[i], LockTimes(time, time + duration)) {
        if i > at + 1 {
          assert slots[at + 1].unlock <= slots[i].lock;
        }
      }
    }
  }

  // On a chained table first fit is the first moment that fits; a request of
  // length zero gets it exactly when no slot starts at its own start time.
  lemma ScheduledEarliest(slots: seq<LockTimes>, startTime: real, duration: real)
    requires Chained(slots) && Proper(slots) && duration >= 0.0
    requires forall i :: 0 <= i < |slots| ==> slots[i].unlock > startTime
    ensures Earliest(slots, startTime, duration, Scheduled(slots, startTime, duration)) <==>
              duration > 0.0 || forall i :: 0 <= i < |slots| ==> slots[i].lock != startTime
  {
    ScheduledFits(slots, startTime, duration);
    var time := Scheduled(slots, startTime, duration);
    if !StartsBefore(slots, startTime, duration) {
      if duration > 0.0 {
        forall t | startTime <= t < time ensures !Fits(slots, t, duration) {
          NoneSooner(slots, startTime, duration, Gap(slots, startTime, duration, 0), t);
        }
      } else {
        NothingFitsInSlot(slots, startTime);
      }
    }
  }

  lemma NothingFitsInSlot(slots: seq<LockTimes>, startTime: real)
    requires Chained(slots) && Proper(slots) && |slots| > 0 && slots[0].lock <= startTime
    requires forall i :: 0 <= i < |slots| ==> slots[i].unlock > startTime
    ensures Scheduled(slots, startTime, 0.0) == slots[0].unlock
    ensures Earliest(slots, startTime, 0.0, slots[0].unlock) <==>
              forall i :: 0 <= i < |slots| ==> slots[i].lock != startTime
  {
    ScheduledFits(slots, startTime, 0.0);
    forall i | 0 < i < |slots| ensures slots[i].lock > startTime {}
    if slots[0].lock == startTime {
      assert Fits(slots, startTime, 0.0);
    } else {
      forall t | startTime <= t < slots[0].unlock ensures !Fits(slots, t, 0.0) {
        assert !Disjoint(slots[0], LockTimes(t, t + 0.0));
      }
    }
  }

  // With a tie, a sorted table of slots that do not overlap can hand out time
  // that is taken.
  lemma TieOverlaps()
    ensures exists slots: seq<LockTimes>, startTime, duration ::
      && SortedByLock(slots) && Apart(slots) && Proper(slots) && duration > 0.0
      && (forall i :: 0 <= i < |slots| ==> slots[i].unlock > startTime)
      && !Fits(slots, Scheduled(slots, startTime, duration), duration)
  {
    var later := [LockTimes(1.0, 5.0), LockTimes(1.0, 1.0)];
    assert Gap(later, 0.5, 1.0, 0) == 1;
    assert Scheduled(later, 0.5, 1.0) == 1.0;
    assert !Disjoint(later[0], LockTimes(1.0, 1.0 + 1.0));
    assert SortedByLock(later) && Apart(later) && Proper(later);
  }

  // ---------- keeping slots apart ----------

  lemma InsertApart(slots: seq<LockTimes>, k: nat, x: LockTimes)
    requires Apart(slots) && k <= |slots| && forall i :: 0 <= i < |slots| ==> Disjoint(slots[i], x)
    ensures Apart(slots[..k] + [x] + slots[k..])
  {
    var all := slots[..k] + [x] + slots[k..];
    forall i, j | 0 <= i < j < |all| ensures Disjoint(all[i], all[j]) {
      if i < k && j > k {
        assert all[j] == slots[j - 1];
      } else if i > k {
        assert all[i] == slots[i - 1] && all[j] == slots[j - 1];
      }
    }
  }

  lemma ElementsBefore(slots: seq<LockTimes>, sorted: seq<LockTimes>, n: nat)
    requires n < |slots| && Apart(slots) && multiset(sorted) == multiset(slots[..n])
    ensures forall i :: 0 <= i < |sorted| ==> Disjoint(sorted[i], slots[n])
  {
    forall i | 0 <= i < |sorted| ensures Disjoint(sorted[i], slots[n]) {
      assert sorted[i] in multiset(slots[..n]);
    }
  }

  method Insert(sorted: seq<LockTimes>, x: LockTimes) returns (longer: seq<LockTimes>)
    requires SortedByLock(sorted)
    ensures SortedByLock(longer) && multiset(longer) == multiset(sorted) + multiset{x}
    ensures Apart(sorted) && (forall i :: 0 <= i < |sorted| ==> Disjoint(sorted[i], x)) ==> Apart(longer)
  {
    var k := 0;
    while k < |sorted| && sorted[k].lock <= x.lock
      invariant 0 <= k <= |sorted| && forall i :: 0 <= i < k ==> sorted[i].lock <= x.lock
    {
      k := k + 1;
    }
    if Apart(sorted) && forall i :: 0 <= i < |sorted| ==> Disjoint(sorted[i], x) {
      InsertApart(sorted, k, x);
    }
    InsertSorted(sorted, k, x);
    hide SortedByLock, Apart;
    longer := sorted[..k] + [x] + sorted[k..];
  }

  lemma InsertSorted(slots: seq<LockTimes>, k: nat, x: LockTimes)
    requires SortedByLock(slots) && k <= |slots|
    requires forall i :: 0 <= i < k ==> slots[i].lock <= x.lock
    requires k < |slots| ==> x.lock <= slots[k].lock
    ensures SortedByLock(slots[..k] + [x] + slots[k..])
    ensures multiset(slots[..k] + [x] + slots[k..]) == multiset(slots) + multiset{x}
  {
    assert slots == slots[..k] + slots[k..];
    SortedWith(slots, k, x, slots[..k] + [x] + slots[k..]);
  }

  lemma SortedWith(slots: seq<LockTimes>, k: nat, x: LockTimes, all: seq<LockTimes>)
    requires SortedByLock(slots) && k <= |slots| && |all| == |slots| + 1 && all[k] == x
    requires forall i :: 0 <= i < k ==> all[i] == slots[i] && slots[i].lock <= x.lock
    requires forall i :: k <= i < |slots| ==> all[i + 1] == slots[i]
    requires k < |slots| ==> x.lock <= slots[k].lock
    ensures SortedByLock(all)
  {
    forall i, j | 0 <= i < j < |all| ensures all[i].lock <= all[j].lock {
      if j > k {
        assert all[(j - 1) + 1] == slots[j - 1];
      }
      if i > k {
        assert all[(i - 1) + 1] == slots[i - 1];
      }
    }
  }

  // Stands for std::sort with timings_sorter: some ordering by start time.
  method Sort(slots: seq<LockTimes>) returns (sorted: seq<LockTimes>)
    ensures SortedByLock(sorted) && multiset(sorted) == multiset(slots)
    ensures Apart(slots) ==> Apart(sorted)
  {
    hide SortedByLock, Apart;
    sorted := [];
    NoSlots();
    for n := 0 to |slots|
      invariant SortedByLock(sorted) && multiset(sorted) == multiset(slots[..n])
      invariant Apart(slots) ==> Apart(sorted)
    {
      if Apart(slots) {
        ElementsBefore(slots, sorted, n);
      }
      sorted := Insert(sorted, slots[n]);
      assert slots[..n + 1] == slots[..n] + [slots[n]];
    }
    assert slots[..|slots|] == slots;
  }

  lemma NoSlots()
    ensures SortedByLock([]) && Apart([])
  {}

  lemma EraseOne(before: seq<LockTimes>, it: nat)
    requires it < |before|
    ensures var after := before[..it] + before[it + 1..];
            && multiset(before) == multiset(after) + multiset{before[it]}
            && (Apart(before) ==> Apart(after))
  {
    assert before == before[..it] + [before[it]] + before[it + 1..];
  }

  // A slot that fits the live ones, starts no earlier than the request and no
  // slot has been forgotten that could reach past the request.
  lemma GrantKeepsApart(slots: seq<LockTimes>, live: seq<LockTimes>, startTime: real, granted: LockTimes)
    requires Apart(slots) && granted.lock >= startTime && Fits(live, granted.lock, granted.unlock - granted.lock)
    requires forall i :: 0 <= i < |slots| ==> slots[i] in live || slots[i].unlock <= startTime
    ensures Apart(slots + [granted])
  {
    var all := slots + [granted];
    forall i | 0 <= i < |slots| ensures Disjoint(slots[i], granted) {
      if slots[i] in live {
        var k :| 0 <= k < |live| && live[k] == slots[i];
        assert Disjoint(live[k], LockTimes(granted.lock, granted.lock + (granted.unlock - granted.lock)));
      }
    }
  }

  // Slots that end by the request's start time cannot keep it from fitting.
  lemma FitsLiveOnly(slots: seq<LockTimes>, live: seq<LockTimes>, startTime: real, time: real, duration: real)
    requires time >= startTime && forall x :: x in live <==> x in slots && x.unlock > startTime
    ensures Fits(slots, time, duration) <==> Fits(live, time, duration)
  {
    if Fits(live, time, duration) {
      forall i | 0 <= i < |slots| ensures Disjoint(slots[i], LockTimes(time, time + duration)) {
        if slots[i] in live {
          var k :| 0 <= k < |live| && live[k] == slots[i];
          assert Disjoint(live[k], LockTimes(time, time + duration));
        }
      }
    }
    if Fits(slots, time, duration) {
      forall k | 0 <= k < |live| ensures Disjoint(live[k], LockTimes(time, time + duration)) {
        assert live[k] in slots;
        var i :| 0 <= i < |slots| && slots[i] == live[k];
        assert Disjoint(slots[i], LockTimes(time, time + duration));
      }
    }
  }

  lemma EarliestLiveOnly(slots: seq<LockTimes>, live: seq<LockTimes>, startTime: real, duration: real, time: real)
    requires forall x :: x in live <==> x in slots && x.unlock > startTime
    ensures Earliest(live, startTime, duration, time) <==> Earliest(slots, startTime, duration, time)
  {
    forall t | t >= startTime ensures Fits(slots, t, duration) <==> Fits(live, t, duration) {
      FitsLiveOnly(slots, live, startTime, t, duration);
    }
  }

  // A slot granted at the first fit among the live slots overlaps none ever
  // granted exactly when it is the first fit among all of them.
  lemma GrantExact(history: seq<LockTimes>, live: seq<LockTimes>, startTime: real, duration: real, time: real)
    requires Apart(history) && (forall x :: x in live ==> x in history)
    requires Earliest(live, startTime, duration, time)
    ensures Apart(history + [LockTimes(time, time + duration)]) <==> Earliest(history, startTime, duration, time)
  {
    var granted := LockTimes(time, time + duration);
    var all := history + [granted];
    if Apart(all) {
      forall i | 0 <= i < |history| ensures Disjoint(history[i], granted) {
        assert Disjoint(all[i], all[|history|]);
      }
      forall t | startTime <= t < time ensures !Fits(history, t, duration) {
        if Fits(history, t, duration) {
          FitsFewer(history, live, t, duration);
        }
      }
    }
    if Earliest(history, startTime, duration, time) {
      assert forall i :: 0 <= i < |history| ==> Disjoint(history[i], granted);
    }
  }

  lemma FitsFewer(slots: seq<LockTimes>, fewer: seq<LockTimes>, time: real, duration: real)
    requires (forall x :: x in fewer ==> x in slots) && Fits(slots, time, duration)
    ensures Fits(fewer, time, duration)
  {
    forall k | 0 <= k < |fewer| ensures Disjoint(fewer[k], LockTimes(time, time + duration)) {
      assert fewer[k] in slots;
    }
  }

  class Event {
    var timeTaken: real
    var busWaitTime: real

    constructor ()
      ensures timeTaken == 0.0 && busWaitTime == 0.0
    {
      timeTaken, busWaitTime := 0.0, 0.0;
    }

    method IncrBusWaitTime(increment: real)
      modifies `busWaitTime
      ensures busWaitTime == old(busWaitTime) + (if increment > 0.0 then increment else 0.0)
    {
      if increment > 0.0 {
        busWaitTime := busWaitTime + increment;
      }
    }

    method IncrTimeTaken(increment: real)
      modifies `timeTaken
      ensures timeTaken == old(timeTaken) + (if increment > 0.0 then increment else 0.0)
    {
      if increment > 0.0 {
        timeTaken := timeTaken + increment;
      }
    }
  }

  // ready_at is the latest finish time ever granted, or -1 before the first grant.
  ghost predicate LatestFinish(history: seq<LockTimes>, readyAt: real) {
    && (history == [] ==> readyAt == -1.0)
    && (forall i :: 0 <= i < |history| ==> 0.0 <= history[i].unlock <= readyAt)
    && (history != [] ==> exists i :: 0 <= i < |history| && history[i].unlock == readyAt)
  }

  lemma LatestMore(history: seq<LockTimes>, readyAt: real, lt: LockTimes)
    requires LatestFinish(history, readyAt) && lt.unlock >= 0.0
    ensures LatestFinish(history + [lt], if lt.unlock > readyAt then lt.unlock else readyAt)
  {
    var all := history + [lt];
    assert all[|history|] == lt;
    if lt.unlock <= readyAt && history != [] {
      var i :| 0 <= i < |history| && history[i].unlock == readyAt;
      assert all[i].unlock == readyAt;
    }
  }

  // ---------- everything a channel has granted ----------

  // The table; every slot ever granted, including those the table has
  // forgotten; what all requests so far had in common, namely a positive
  // duration, no ties among the slots they were fitted into, no forgotten slot
  // that ends after their start, and a grant at the first fit among all slots
  // ever granted; and the latest start time.
  datatype Books = Books(timings: seq<LockTimes>, history: seq<LockTimes>,
                         positive: bool, untied: bool, guarded: bool, firstOfAll: bool, clock: real)

  ghost predicate InHistory(b: Books) {
    (forall x :: x in b.timings ==> x in b.history) && Proper(b.history) && (b.positive ==> Lasting(b.history))
  }

  ghost predicate LiveApart(b: Books) {
    (b.untied ==> Apart(b.timings)) && (b.positive ==> b.untied)
  }

  // No two slots ever granted overlap if each request was guarded; with
  // positive durations, exactly if each grant was the first fit of all.
  ghost predicate AllApart(b: Books) {
    (b.untied && b.guarded ==> Apart(b.history)) && (b.positive ==> (Apart(b.history) <==> b.firstOfAll))
  }

  // No slot that is granted and forgotten ends after `startTime`.
  ghost predicate Guard(b: Books, startTime: real) {
    forall x :: x in b.history ==> x in b.timings || x.unlock <= startTime
  }

  // The slots a request starting at `startTime` is fitted into are not tied.
  ghost predicate UntiedFrom(timings: seq<LockTimes>, startTime: real) {
    forall x, y :: x in timings && y in timings && x.unlock > startTime && y.unlock > startTime && x.lock == y.lock ==>
      x == y
  }

  ghost predicate BooksOk(b: Books) {
    InHistory(b) && LiveApart(b) && AllApart(b) && Guard(b, b.clock)
  }

  // The slots that end later than `startTime`, each as often as before.
  ghost predicate Live(timings: seq<LockTimes>, live: seq<LockTimes>, startTime: real) {
    forall x :: multiset(live)[x] == if x.unlock > startTime then multiset(timings)[x] else 0
  }

  lemma LiveMembers(timings: seq<LockTimes>, live: seq<LockTimes>, startTime: real)
    requires Live(timings, live, startTime)
    ensures forall x :: x in live <==> x in timings && x.unlock > startTime
    ensures forall i :: 0 <= i < |live| ==> live[i].unlock > startTime
  {
    forall x ensures x in live <==> x in timings && x.unlock > startTime {
      assert x in live <==> x in multiset(live);
      assert x in timings <==> x in multiset(timings);
    }
    assert forall i :: 0 <= i < |live| ==> live[i] in live;
  }

  ghost function Granted(b: Books, live: seq<LockTimes>, startTime: real, duration: real, time: real): Books {
    var g := LockTimes(time, time + duration);
    Books(live + [g], b.history + [g],
          b.positive && duration > 0.0,
          b.untied && UntiedFrom(b.timings, startTime),
          b.guarded && Guard(b, startTime),
          b.firstOfAll && Earliest(b.history, startTime, duration, time),
          if startTime > b.clock then startTime else b.clock)
  }

  // With positive durations there are never ties, and with a start time that
  // does not go back the guard always holds.
  lemma PositiveIsUntied(b: Books, startTime: real)
    requires BooksOk(b)
    ensures b.positive ==> UntiedFrom(b.timings, startTime)
    ensures startTime >= b.clock ==> Guard(b, startTime)
  {
    if b.positive {
      forall i | 0 <= i < |b.timings| ensures b.timings[i].lock < b.timings[i].unlock {
        assert b.timings[i] in b.history;
      }
      LastingUntied(b.timings);
    }
  }

  // The slot first fit picks for a request, among the live slots and among the table's.
  lemma PickedSlot(b: Books, live: seq<LockTimes>, startTime: real, duration: real)
    requires BooksOk(b) && Live(b.timings, live, startTime) && SortedByLock(live)
    requires (Apart(b.timings) ==> Apart(live)) && duration >= 0.0
    ensures Scheduled(live, startTime, duration) >= startTime
    ensures b.untied && UntiedFrom(b.timings, startTime) ==>
              && Fits(live, Scheduled(live, startTime, duration), duration)
              && (Earliest(live, startTime, duration, Scheduled(live, startTime, duration)) <==>
                    duration > 0.0 || forall x :: x in b.timings && x.unlock > startTime ==> x.lock != startTime)
  {
    LiveMembers(b.timings, live, startTime);
    if b.untied && UntiedFrom(b.timings, startTime) {
      forall i | 0 <= i < |live| ensures live[i].lock <= live[i].unlock {
        assert live[i] in live && live[i] in b.history;
      }
      hide Apart, SortedByLock, Fits, Earliest, Scheduled;
      SortedChained(live);
      ScheduledFits(live, startTime, duration);
      ScheduledEarliest(live, startTime, duration);
      assert (forall i :: 0 <= i < |live| ==> live[i].lock != startTime) <==>
        (forall x :: x in live ==> x.lock != startTime);
    }
  }

  // The slot is free in the table, and the first that fits unless its length is
  // zero and a slot that is still live starts where the request does.
  ghost predicate FreeAndFirst(timings: seq<LockTimes>, startTime: real, duration: real, time: real) {
    && Fits(timings, time, duration)
    && (Earliest(timings, startTime, duration, time) <==>
          duration > 0.0 || forall x :: x in timings && x.unlock > startTime ==> x.lock != startTime)
  }

  lemma GrantedUntied(b: Books, live: seq<LockTimes>, startTime: real, duration: real, time: real)
    ensures Granted(b, live, startTime, duration, time).untied == (b.untied && UntiedFrom(b.timings, startTime))
  {}

  lemma PickedInTable(b: Books, live: seq<LockTimes>, startTime: real, duration: real)
    requires BooksOk(b) && Live(b.timings, live, startTime) && SortedByLock(live)
    requires (Apart(b.timings) ==> Apart(live)) && duration >= 0.0
    ensures Scheduled(live, startTime, duration) >= startTime
    ensures b.untied && UntiedFrom(b.timings, startTime) ==>
              FreeAndFirst(b.timings, startTime, duration, Scheduled(live, startTime, duration))
  {
    hide BooksOk, Apart, SortedByLock, Earliest, Fits, Scheduled, UntiedFrom;
    var time := Scheduled(live, startTime, duration);
    PickedSlot(b, live, startTime, duration);
    LiveMembers(b.timings, live, startTime);
    FitsLiveOnly(b.timings, live, startTime, time, duration);
    EarliestLiveOnly(b.timings, live, startTime, duration, time);
  }

  lemma GrantedInHistory(b: Books, live: seq<LockTimes>, startTime: real, duration: real, time: real)
    requires BooksOk(b) && Live(b.timings, live, startTime) && duration >= 0.0
    ensures var b' := Granted(b, live, startTime, duration, time); InHistory(b') && Guard(b', b'.clock)
  {
    hide Apart, Earliest, UntiedFrom;
    LiveMembers(b.timings, live, startTime);
    var g := LockTimes(time, time + duration);
    assert forall x :: x in b.history + [g] <==> x in b.history || x == g;
    assert forall x :: x in live + [g] <==> x in live || x == g;
  }

  lemma GrantedLiveApart(b: Books, live: seq<LockTimes>, startTime: real, duration: real, time: real)
    requires BooksOk(b) && Live(b.timings, live, startTime) && (Apart(b.timings) ==> Apart(live)) && time >= startTime
    requires b.untied && UntiedFrom(b.timings, startTime) ==> Fits(live, time, duration)
    ensures LiveApart(Granted(b, live, startTime, duration, time))
  {
    hide Apart, Earliest, UntiedFrom, Fits, Guard, Lasting, Proper;
    PositiveIsUntied(b, startTime);
    if b.untied && UntiedFrom(b.timings, startTime) {
      assert (time + duration) - time == duration;
      assert forall i :: 0 <= i < |live| ==> live[i] in live;
      GrantKeepsApart(live, live, startTime, LockTimes(time, time + duration));
    }
  }

  lemma GrantedAllApart(b: Books, live: seq<LockTimes>, startTime: real, duration: real, time: real)
    requires BooksOk(b) && Live(b.timings, live, startTime) && time >= startTime
    requires b.untied && UntiedFrom(b.timings, startTime) ==>
               Fits(live, time, duration) && (duration > 0.0 ==> Earliest(live, startTime, duration, time))
    ensures AllApart(Granted(b, live, startTime, duration, time))
  {
    LiveMembers(b.timings, live, startTime);
    hide Earliest, UntiedFrom, Fits, Lasting, Proper;
    PositiveIsUntied(b, startTime);
    var g := LockTimes(time, time + duration);
    if b.untied && UntiedFrom(b.timings, startTime) && b.guarded && Guard(b, startTime) {
      assert g.unlock - g.lock == duration;
      assert forall i :: 0 <= i < |b.history| ==> b.history[i] in b.history;
      GrantKeepsApart(b.history, live, startTime, g);
    }
    if Apart(b.history) {
      if b.positive && duration > 0.0 {
        GrantExact(b.history, live, startTime, duration, time);
      }
    } else if Apart(b.history + [g]) {
      ApartPrefix(b.history, g);
    }
  }

  lemma ApartPrefix(slots: seq<LockTimes>, g: LockTimes)
    requires Apart(slots + [g])
    ensures Apart(slots)
  {
    var all := slots + [g];
    forall i, j | 0 <= i < j < |slots| ensures Disjoint(slots[i], slots[j]) {
      assert Disjoint(all[i], all[j]);
    }
  }

  // A grant keeps the books in order.
  lemma GrantKeepsBooks(b: Books, live: seq<LockTimes>, startTime: real, duration: real)
    requires BooksOk(b) && Live(b.timings, live, startTime) && SortedByLock(live)
    requires (Apart(b.timings) ==> Apart(live)) && duration >= 0.0
    ensures BooksOk(Granted(b, live, startTime, duration, Scheduled(live, startTime, duration)))
  {
    var time := Scheduled(live, startTime, duration);
    PickedSlot(b, live, startTime, duration);
    hide InHistory, LiveApart, AllApart, Guard, Apart, Fits, Earliest, UntiedFrom, Live, SortedByLock, Scheduled;
    GrantedInHistory(b, live, startTime, duration, time);
    GrantedLiveApart(b, live, startTime, duration, time);
    GrantedAllApart(b, live, startTime, duration, time);
  }

  class Channel {
    var timings: seq<LockTimes>
    var readyAt: real

    // What has been granted, and under which conditions.
    ghost var books: Books

    ghost predicate Valid()
      reads this
    {
      books.timings == timings && BooksOk(books) && LatestFinish(books.history, readyAt)
    }

    constructor ()
      ensures Valid() && books == Books([], [], true, true, true, true, 0.0)
    {
      timings, readyAt := [], -1.0;
      books := Books([], [], true, true, true, true, 0.0);
    }

    // The loop of unlock: drops slots that end by `startTime`.
    method DropExpired(startTime: real)
      modifies `timings
      ensures Live(old(timings), timings, startTime) && (old(Apart(timings)) ==> Apart(timings))
    {
      hide Apart;
      var it := 0;
      while it < |timings|
        invariant 0 <= it <= |timings|
        invariant forall i :: 0 <= i < it ==> timings[i].unlock > startTime
        invariant forall x: LockTimes :: x.unlock > startTime ==> multiset(timings)[x] == multiset(old(timings))[x]
        invariant old(Apart(timings)) ==> Apart(timings)
        decreases |timings| - it
      {
        if timings[it].unlock <= startTime {
          EraseOne(timings, it);
          timings := timings[..it] + timings[it + 1..];
        } else {
          it := it + 1;
        }
      }
      forall x | x in multiset(timings) ensures x.unlock > startTime {
        assert x in timings;
      }
    }

    // Drops slots that end by `startTime` and sorts the rest.
    method Unlock(startTime: real)
      modifies `timings
      ensures SortedByLock(timings) && Live(old(timings), timings, startTime)
      ensures old(Apart(timings)) ==> Apart(timings)
    {
      hide Apart, SortedByLock;
      DropExpired(startTime);
      timings := Sort(timings);
    }

    // First fit: before the first slot, else in the first gap that is long
    // enough, else after the last slot.
    method FirstFit(startTime: real, duration: real) returns (schedTime: real)
      ensures schedTime == Scheduled(timings, startTime, duration)
    {
      if |timings| == 0 {
        return startTime;
      }
      if timings[0].lock > startTime && timings[0].lock - startTime >= duration {
        return startTime;
      }
      var it := 0;
      while it + 1 < |timings|
        invariant 0 <= it < |timings|
        invariant Gap(timings, startTime, duration, it) == Gap(timings, startTime, duration, 0)
      {
        if timings[it].unlock >= startTime && timings[it + 1].lock - timings[it].unlock >= duration {
          return timings[it].unlock;
        }
        it := it + 1;
      }
      schedTime := timings[|timings| - 1].unlock;
    }

    // Grants one slot. Without ties it is free, and it is the first that fits
    // unless the request has length zero and a live slot starts where it does.
    method Lock(startTime: real, duration: real, event: Event)
      returns (ghost live: seq<LockTimes>, ghost granted: LockTimes)
      requires Valid() && startTime >= 0.0 && duration >= 0.0
      modifies this, event
      ensures Valid() && Live(old(timings), live, startTime) && SortedByLock(live) && timings == live + [granted]
      ensures granted.lock == Scheduled(live, startTime, duration) >= startTime
      ensures granted.unlock == granted.lock + duration
      ensures books == Granted(old(books), live, startTime, duration, granted.lock)
      ensures books.untied ==> FreeAndFirst(old(timings), startTime, duration, granted.lock)
      ensures event.busWaitTime == old(event.busWaitTime) + (granted.lock - startTime)
      ensures event.timeTaken == old(event.timeTaken) + (granted.lock - startTime) + duration
    {
      hide BooksOk, Apart, SortedByLock, LatestFinish, Scheduled, Granted, Live, FreeAndFirst, UntiedFrom;
      ghost var b := books;
      Unlock(startTime);
      live := timings;
      var schedTime := FirstFit(startTime, duration);
      PickedInTable(b, live, startTime, duration);
      GrantedUntied(b, live, startTime, duration, schedTime);
      granted := LockTimes(schedTime, schedTime + duration);
      Record(schedTime, duration, startTime, b.timings);
      event.IncrBusWaitTime(schedTime - startTime);
      event.IncrTimeTaken(schedTime - startTime + duration);
    }

    // The granted slot enters the table.
    method Record(schedTime: real, duration: real, ghost startTime: real, ghost before: seq<LockTimes>)
      requires books.timings == before && BooksOk(books) && LatestFinish(books.history, readyAt)
      requires Live(before, timings, startTime) && SortedByLock(timings) && (Apart(before) ==> Apart(timings))
      requires duration >= 0.0 && schedTime == Scheduled(timings, startTime, duration) >= startTime >= 0.0
      modifies this
      ensures Valid() && timings == old(timings) + [LockTimes(schedTime, schedTime + duration)]
      ensures books == Granted(old(books), old(timings), startTime, duration, schedTime)
    {
      hide BooksOk, Apart, SortedByLock, LatestFinish, Scheduled, Live, Earliest, Guard, UntiedFrom;
      GrantKeepsBooks(books, timings, startTime, duration);
      var lt := LockTimes(schedTime, schedTime + duration);
      LatestMore(books.history, readyAt, lt);
      books := Granted(books, timings, startTime, duration, schedTime);
      timings := timings + [lt];
      if lt.unlock > readyAt {
        readyAt := lt.unlock;
      }
    }
  }

  // Two requests, ten time units at 0 and five at 20.
  ghost function Once(): Books {
    Granted(Books([], [], true, true, true, true, 0.0), [], 0.0, 10.0, Scheduled([], 0.0, 10.0))
  }

  ghost function Twice(): Books {
    Granted(Once(), [], 20.0, 5.0, Scheduled([], 20.0, 5.0))
  }

  lemma OnceAndTwice()
    ensures Live(Once().timings, [], 20.0)
    ensures Twice().timings == [LockTimes(20.0, 25.0)]
    ensures Twice().history == [LockTimes(0.0, 10.0), LockTimes(20.0, 25.0)]
  {
    hide UntiedFrom, Guard, Earliest;
  }

  // The table forgets slots by the latest request, so a request that starts
  // earlier than one before it, here for ten time units at 0 again, can be
  // granted a slot that was already given away.
  lemma StartsGoingBackOverlap(live: seq<LockTimes>)
    requires live == Twice().timings
    ensures Live(Twice().timings, live, 0.0) && SortedByLock(live)
    ensures !Guard(Twice(), 0.0)
    ensures !Apart(Granted(Twice(), live, 0.0, 10.0, Scheduled(live, 0.0, 10.0)).history)
  {
    OnceAndTwice();
    hide UntiedFrom, Earliest, Once, Twice;
    var history := Twice().history + [LockTimes(0.0, 10.0)];
    assert LockTimes(0.0, 10.0) == Twice().history[0];
    assert LockTimes(0.0, 10.0) !in live;
    assert Scheduled(live, 0.0, 10.0) == 0.0;
    assert !Disjoint(history[0], history[2]);
  }
}
