// The cached mapping table of DFTL (FTLs/dftl_parent.cpp): which entries of the
// page map are cached, how they age, and how the least recently visited leave.
module DftlCache {
  import opened Arithmetic
  import opened Flash

  datatype MPage = MPage(
    vpn: nat,
    ppn: Option<PageAddr>,
    createTs: real,
    modifiedTs: real,
    lastVisited: real,
    cached: bool)

  function NewMPage(vpn: nat): MPage {
    MPage(vpn, None, -1.0, -1.0, -1.0, false)
  }

  // reset_MPage, with the cached flag dropped as every caller does.
  function Uncached(m: MPage): MPage {
    m.(createTs := -2.0, modifiedTs := -2.0, lastVisited := -2.0, cached := false)
  }

  // Order of the index by last visit: entries that are not cached come last.
  predicate KeyLeq(a: MPage, b: MPage) {
    !b.cached || (a.cached && a.lastVisited <= b.lastVisited)
  }

  ghost predicate TableOk(table: seq<MPage>) {
    forall v :: 0 <= v < |table| ==>
      table[v].vpn == v && (table[v].cached ==> table[v].createTs >= 0.0 && table[v].modifiedTs >= 0.0)
  }

  ghost function Cached(table: seq<MPage>): set<nat> {
    set v | 0 <= v < |table| && table[v].cached
  }

  ghost function Ppns(table: seq<MPage>): seq<Option<PageAddr>> {
    seq(|table|, v requires 0 <= v < |table| => table[v].ppn)
  }

  lemma CachedUpdate(table: seq<MPage>, v: nat, m: MPage)
    requires v < |table|
    ensures Cached(table[v := m]) == if m.cached then Cached(table) + {v} else Cached(table) - {v}
    ensures |Cached(table[v := m])| ==
        |Cached(table)| + (if m.cached then 1 else 0) - (if table[v].cached then 1 else 0)
  {
    assert table[v].cached <==> v in Cached(table);
    if m.cached && table[v].cached {
      assert Cached(table) + {v} == Cached(table);
    }
    if !m.cached && !table[v].cached {
      assert Cached(table) - {v} == Cached(table);
    }
    assert Cached(table[v := m]) == if m.cached then Cached(table) + {v} else Cached(table) - {v};
  }

  lemma PpnsUpdate(table: seq<MPage>, v: nat, m: MPage)
    requires v < |table|
    ensures Ppns(table[v := m]) == Ppns(table)[v := m.ppn]
  {}

  // An eviction drops an entry that was cached and visited no later than any
  // entry that stays.
  ghost predicate LruFrom(before: seq<MPage>, after: seq<MPage>) {
    && |after| == |before| && Ppns(after) == Ppns(before) && Cached(after) <= Cached(before)
    && (forall v :: v in Cached(after) ==> after[v].lastVisited == before[v].lastVisited)
    && (forall e, v :: e in Cached(before) - Cached(after) && v in Cached(after) ==>
      before[e].lastVisited <= before[v].lastVisited)
  }

  // If the entry was cached and dirty, its cached siblings on the translation
  // page are clean now. No other entry has changed.
  ghost predicate SiblingsCleaned(before: seq<MPage>, v: nat, after: seq<MPage>, perPage: nat)
    requires perPage > 0
  {
    && v < |before| == |after|
    && forall w :: 0 <= w < |before| && w != v ==>
         after[w] == before[w].(createTs :=
           if before[v].cached && Dirty(before[v]) && before[w].cached && Siblings(w, v, perPage)
           then before[w].modifiedTs
           else before[w].createTs)
  }

  // The entry has left.
  lemma SpecificGone(before: seq<MPage>, v: nat, after: seq<MPage>, perPage: nat)
    requires perPage > 0 && TableOk(before) && SiblingsCleaned(before, v, after, perPage)
    requires after[v] == Uncached(before[v])
    ensures TableOk(after) && Ppns(after) == Ppns(before) && Cached(after) == Cached(before) - {v}
    ensures |Cached(after)| == |Cached(before)| - (if before[v].cached then 1 else 0)
    ensures TameTable(before, perPage) ==> TameTable(after, perPage)
  {
    hide Siblings, Whole;
    assert Cached(after) == Cached(before) - {v};
    assert v in Cached(before) <==> before[v].cached;
  }

  // An entry that left and was put back.
  lemma PutBack(before: seq<MPage>, history: seq<Touch>, v: nat, table: seq<MPage>, m: MPage, perPage: nat)
    requires perPage > 0 && Recalled(before, history) && SiblingsCleaned(before, v, table, perPage)
    requires m.lastVisited == before[v].lastVisited && m.cached == before[v].cached
    ensures SiblingsCleaned(before, v, table[v := m], perPage) && Recalled(table[v := m], history)
  {
    hide Siblings, Dirty;
  }

  // One eviction: v has the least key.
  ghost predicate EvictedOne(before: seq<MPage>, v: nat, after: seq<MPage>, perPage: nat)
    requires perPage > 0
  {
    && v < |before| == |after|
    && before[v].cached && (forall w :: 0 <= w < |before| ==> KeyLeq(before[v], before[w]))
    && after[v] == Uncached(before[v]) && SiblingsCleaned(before, v, after, perPage)
  }

  lemma EvictedOneIsLru(start: seq<MPage>, before: seq<MPage>, v: nat, after: seq<MPage>, perPage: nat)
    requires perPage > 0 && LruFrom(start, before) && EvictedOne(before, v, after, perPage)
    ensures LruFrom(start, after)
    ensures Cached(after) == Cached(before) - {v} && |Cached(after)| == |Cached(before)| - 1
  {
    assert Cached(after) == Cached(before) - {v};
    assert v in Cached(before);
    assert Ppns(after) == Ppns(before);
  }

  // ---------- recency ----------

  // What happens to the cache, in order: a logical page is asked for, or an
  // entry leaves to make room.
  datatype Touch = Asked(page: nat, isWrite: bool, time: real) | Gone(page: nat)

  // When the page was last asked for, if it has been since it last left.
  function Standing(history: seq<Touch>, v: nat): Option<real>
    decreases |history|
  {
    if |history| == 0 then None
    else
      var last := history[|history| - 1];
      if last.page != v then Standing(history[..|history| - 1], v)
      else if last.Asked? then Some(last.time)
      else None
  }

  // The requests alone.
  function Requests(history: seq<Touch>): seq<Touch>
    decreases |history|
  {
    if |history| == 0 then []
    else
      var last := history[|history| - 1];
      Requests(history[..|history| - 1]) + (if last.Asked? then [last] else [])
  }

  // The place of the last request for the page, or -1.
  function LastRequest(history: seq<Touch>, v: nat): (i: int)
    decreases |history|
  {
    if |history| == 0 then -1
    else
      var n := |history| - 1;
      if history[n].Asked? && history[n].page == v then n else LastRequest(history[..n], v)
  }

  // An entry carries the time it was last asked for. One that cleaning brought
  // in, and nobody has asked for since, carries a negative time.
  ghost predicate Aged(table: seq<MPage>, history: seq<Touch>) {
    && (forall w: nat :: Standing(history, w).Some? ==> w < |table|)
    && forall v :: 0 <= v < |table| ==>
         var time := Standing(history, v);
         if time.Some? then table[v].cached && table[v].lastVisited == time.value >= 0.0
         else table[v].lastVisited < 0.0
  }

  // No other entry was last asked for before this one was.
  ghost predicate LeastRecent(history: seq<Touch>, e: nat) {
    var time := Standing(history, e);
    time.Some? ==> forall w: nat :: Standing(history, w).Some? ==> time.value <= Standing(history, w).value
  }

  // Whatever left was the least recently asked for among those there.
  ghost predicate LruHistory(history: seq<Touch>) {
    forall i :: 0 <= i < |history| && history[i].Gone? ==> LeastRecent(history[..i], history[i].page)
  }

  ghost predicate Recalled(table: seq<MPage>, history: seq<Touch>) {
    Aged(table, history) && LruHistory(history)
  }

  // Every cached entry has been asked for, and so had every one that left.
  ghost predicate AllAsked(table: seq<MPage>, history: seq<Touch>) {
    && (forall v :: 0 <= v < |table| && table[v].cached ==> Standing(history, v).Some?)
    && (forall i :: 0 <= i < |history| && history[i].Gone? ==> Standing(history[..i], history[i].page).Some?)
  }

  ghost predicate TimesKeepOrder(history: seq<Touch>) {
    forall i, j :: 0 <= i < j < |history| && history[i].Asked? && history[j].Asked? ==>
      history[i].time <= history[j].time
  }

  lemma OneMoreTouch(history: seq<Touch>, touch: Touch)
    ensures (history + [touch])[..|history|] == history
    ensures forall w ::
              Standing(history + [touch], w) ==
              if touch.page != w then Standing(history, w) else if touch.Asked? then Some(touch.time) else None
    ensures Requests(history + [touch]) == Requests(history) + (if touch.Asked? then [touch] else [])
  {
    assert (history + [touch])[..|history|] == history;
  }

  lemma LruMore(history: seq<Touch>, touch: Touch)
    requires LruHistory(history) && (touch.Gone? ==> LeastRecent(history, touch.page))
    ensures LruHistory(history + [touch])
  {
    var more := history + [touch];
    forall i | 0 <= i < |more| && more[i].Gone? ensures LeastRecent(more[..i], more[i].page) {
      if i < |history| {
        assert more[..i] == history[..i];
      } else {
        assert more[..i] == history;
      }
    }
  }

  lemma AskedMore(table: seq<MPage>, history: seq<Touch>, touch: Touch, table': seq<MPage>)
    requires AllAsked(table, history) && |table'| == |table|
    requires touch.Gone? ==> Standing(history, touch.page).Some?
    requires forall v :: 0 <= v < |table| && table'[v].cached ==>
        if v == touch.page then touch.Asked? else table[v].cached
    ensures AllAsked(table', history + [touch])
  {
    OneMoreTouch(history, touch);
    var more := history + [touch];
    forall i | 0 <= i < |more| && more[i].Gone? ensures Standing(more[..i], more[i].page).Some? {
      if i < |history| {
        assert more[..i] == history[..i];
      } else {
        assert more[..i] == history;
      }
    }
  }

  lemma RecalledAsked(table: seq<MPage>, history: seq<Touch>, v: nat, m: MPage, isWrite: bool)
    requires Recalled(table, history) && v < |table| && m.cached && m.lastVisited >= 0.0
    ensures Recalled(table[v := m], history + [Asked(v, isWrite, m.lastVisited)])
  {
    var touch := Asked(v, isWrite, m.lastVisited);
    OneMoreTouch(history, touch);
    LruMore(history, touch);
  }

  // An entry that joins without being asked for, or stays.
  lemma RecalledKept(table: seq<MPage>, history: seq<Touch>, v: nat, m: MPage)
    requires Recalled(table, history) && v < |table| && m.lastVisited == table[v].lastVisited
    requires table[v].cached ==> m.cached
    ensures Recalled(table[v := m], history)
  {}

  // An eviction takes the least recently asked for, unless cleaning brought in
  // one that nobody has asked for.
  lemma EvictedOneIsLeastRecent(before: seq<MPage>, v: nat, after: seq<MPage>, perPage: nat, history: seq<Touch>)
    requires perPage > 0 && EvictedOne(before, v, after, perPage) && Recalled(before, history)
    ensures Recalled(after, history + [Gone(v)])
    ensures (exists w :: 0 <= w < |before| && before[w].cached && Standing(history, w).None?) ==>
        Standing(history, v).None?
    ensures AllAsked(before, history) ==> AllAsked(after, history + [Gone(v)])
  {
    hide Siblings;
    OneMoreTouch(history, Gone(v));
    forall w: nat | Standing(history, w).Some? && Standing(history, v).Some?
      ensures Standing(history, v).value <= Standing(history, w).value
    {
      assert KeyLeq(before[v], before[w]);
    }
    LruMore(history, Gone(v));
    if AllAsked(before, history) {
      AskedMore(before, history, Gone(v), after);
    }
  }

  // While an entry stands, its time is that of the last request for it.
  lemma {:induction false} StandingIsLastRequest(history: seq<Touch>, v: nat)
    requires Standing(history, v).Some?
    ensures var i := LastRequest(history, v);
            0 <= i < |history| && history[i].Asked? && history[i].page == v &&
              Standing(history, v) == Some(history[i].time)
    decreases |history|
  {
    var n := |history| - 1;
    if history[n].page != v {
      StandingIsLastRequest(history[..n], v);
    }
  }

  lemma {:induction false} NoLaterRequest(history: seq<Touch>, v: nat)
    ensures -1 <= LastRequest(history, v) < |history|
    ensures forall j :: LastRequest(history, v) < j < |history| && history[j].Asked? ==> history[j].page != v
    decreases |history|
  {
    if |history| > 0 {
      NoLaterRequest(history[..|history| - 1], v);
    }
  }

  // When the entry that left at place i was last asked for is no later than when
  // page w was, judged by the requests alone.
  ghost predicate LeftBefore(history: seq<Touch>, i: nat, w: nat)
    requires i < |history|
  {
    var gone := LastRequest(history[..i], history[i].page);
    var stays := LastRequest(history[..i], w);
    && 0 <= gone < i && 0 <= stays < i && history[gone].Asked? && history[stays].Asked?
    && history[gone].page == history[i].page && history[stays].page == w
    && history[gone].time <= history[stays].time
    && (TimesKeepOrder(history) ==> gone <= stays || history[gone].time == history[stays].time)
  }

  ghost predicate LeftInOrder(history: seq<Touch>) {
    forall i, w: nat :: 0 <= i < |history| && history[i].Gone? && Standing(history[..i], w).Some? ==>
      LeftBefore(history, i, w)
  }

  // Over any history the cache can have: an entry that leaves was last asked
  // for no later than any entry that stays.
  lemma LeavesInOrder(history: seq<Touch>, i: nat, w: nat)
    requires LruHistory(history) && i < |history| && history[i].Gone?
    requires Standing(history[..i], history[i].page).Some? && Standing(history[..i], w).Some?
    ensures LeftBefore(history, i, w)
  {
    assert LeastRecent(history[..i], history[i].page);
    StandingIsLastRequest(history[..i], history[i].page);
    StandingIsLastRequest(history[..i], w);
  }

  // `after` adds n evictions to `before`.
  ghost predicate OnlyGone(before: seq<Touch>, after: seq<Touch>, n: int) {
    && n >= 0 && |after| == |before| + n && after[..|before|] == before
    && forall i :: |before| <= i < |after| ==> after[i].Gone?
  }

  lemma NoneGone(history: seq<Touch>)
    ensures OnlyGone(history, history, 0)
  {}

  lemma OneMoreGone(before: seq<Touch>, after: seq<Touch>, n: int)
    requires OnlyGone(before, after, n)
    ensures forall v :: OnlyGone(before, after + [Gone(v)], n + 1)
  {}

  lemma {:induction false} OnlyGoneRequests(before: seq<Touch>, after: seq<Touch>, n: int)
    requires OnlyGone(before, after, n)
    ensures Requests(after) == Requests(before) && (n == 0 ==> after == before)
    decreases n
  {
    if n == 0 {
      assert after == before;
    } else {
      OnlyGoneRequests(before, after[..|after| - 1], n - 1);
    }
  }

  // ---------- the translation page that is not filled ----------

  // Two logical pages whose entries share a translation page.
  ghost predicate Siblings(w: nat, v: nat, perPage: nat)
    requires perPage > 0
  {
    w / perPage == v / perPage
  }

  // A logical page whose translation page is filled by the map. The map's last
  // translation page is not, unless the map size is a multiple of the entries.
  predicate Whole(v: nat, perPage: nat, size: nat)
    requires perPage > 0
  {
    v / perPage < size / perPage
  }

  // Whether the entry has been written since its translation page was.
  predicate Dirty(m: MPage) {
    m.createTs != m.modifiedTs
  }

  // Nothing on that page is mapped, and its cached entries are clean.
  ghost predicate TameTable(table: seq<MPage>, perPage: nat)
    requires perPage > 0
  {
    forall v :: 0 <= v < |table| && !Whole(v, perPage, |table|) ==>
      table[v].ppn == None && (table[v].cached ==> !Dirty(table[v]))
  }

  // A dirty entry of that page has left the cache.
  ghost predicate LostDirty(start: seq<MPage>, table: seq<MPage>, perPage: nat)
    requires perPage > 0 && |start| == |table|
  {
    exists e :: 0 <= e < |start| && start[e].cached && !table[e].cached && Dirty(start[e]) &&
      !Whole(e, perPage, |start|)
  }

  // The entries of that page still cached are as dirty as they were.
  ghost predicate SameDirt(start: seq<MPage>, table: seq<MPage>, perPage: nat)
    requires perPage > 0 && |start| == |table|
  {
    forall w :: 0 <= w < |start| && table[w].cached && !Whole(w, perPage, |start|) ==>
      start[w].cached && (Dirty(table[w]) <==> Dirty(start[w]))
  }

  // An eviction loses a dirty entry of that page exactly when its victim is one.
  lemma EvictedOneLoses(start: seq<MPage>, before: seq<MPage>, v: nat, after: seq<MPage>, perPage: nat)
    requires perPage > 0 && |start| == |before| && EvictedOne(before, v, after, perPage)
    requires LostDirty(start, before, perPage) || SameDirt(start, before, perPage)
    ensures LostDirty(start, after, perPage) <==>
              LostDirty(start, before, perPage) || (Dirty(before[v]) && !Whole(v, perPage, |before|))
    ensures LostDirty(start, after, perPage) || SameDirt(start, after, perPage)
  {
    if LostDirty(start, before, perPage) {
      var e :| 0 <= e < |start| && start[e].cached && !before[e].cached && Dirty(start[e]) &&
        !Whole(e, perPage, |start|);
      assert !after[e].cached;
    } else if Dirty(before[v]) && !Whole(v, perPage, |before|) {
      assert start[v].cached && !after[v].cached && Dirty(start[v]);
    } else {
      hide Whole, Dirty;
      forall w | 0 <= w < |start| && after[w].cached && !Whole(w, perPage, |start|)
        ensures start[w].cached && (Dirty(after[w]) <==> Dirty(start[w]))
      {
        assert before[w].cached;
        SiblingsWhole(w, v, perPage, |start|);
      }
    }
  }

  lemma SiblingsWhole(w: nat, v: nat, perPage: nat, size: nat)
    requires perPage > 0
    ensures Siblings(w, v, perPage) ==> (Whole(w, perPage, size) <==> Whole(v, perPage, size))
  {}

  lemma EvictedOneTame(before: seq<MPage>, v: nat, after: seq<MPage>, perPage: nat)
    requires perPage > 0 && EvictedOne(before, v, after, perPage) && TameTable(before, perPage)
    ensures TameTable(after, perPage) && (Dirty(before[v]) ==> Whole(v, perPage, |before|))
  {
    hide Whole, Siblings;
  }

  lemma NothingEvicted(table: seq<MPage>, perPage: nat)
    requires perPage > 0
    ensures LruFrom(table, table) && !LostDirty(table, table, perPage) && SameDirt(table, table, perPage)
  {}

  lemma SomeCached(table: seq<MPage>, n: int)
    requires |Cached(table)| >= n > 0
    ensures exists v :: 0 <= v < |table| && table[v].cached
  {
    assert Cached(table) != {};
  }

  lemma SameQuotient(w: nat, v: nat, m: nat)
    requires m > 0
    ensures v - v % m <= w < v - v % m + m <==> Siblings(w, v, m)
  {
    DivMod(w, m);
    DivMod(v, m);
    if v - v % m <= w < v - v % m + m {
      DivModUnique(v / m, m, w - (v - v % m));
    }
  }

  // The loop over the siblings of a page stays in the map exactly when the
  // page's translation page is filled.
  lemma TranslationPageInMap(v: nat, perPage: nat, size: nat)
    requires perPage > 0 && v < size
    ensures v - v % perPage + perPage <= size <==> Whole(v, perPage, size)
    ensures size % perPage == 0 ==> Whole(v, perPage, size)
  {
    DivMod(v, perPage);
    DivMod(size, perPage);
    RowIsFull(v / perPage, v % perPage, size / perPage, size % perPage, perPage);
  }

  // The row that holds place r of row q is full exactly when a later row is begun.
  lemma RowIsFull(q: nat, r: nat, n: nat, s: nat, m: nat)
    requires r < m && s < m && q * m + r < n * m + s
    ensures q * m + m <= n * m + s <==> q < n
    ensures s == 0 ==> q < n
  {
    MulDistributes(q, 1, m);
    MulDistributes(n, 1, m);
    if q < n {
      MulMonotone(q + 1, n, m);
    } else {
      MulMonotone(n, q, m);
    }
  }

  // Cached entries from `from` up to `to` have been made clean.
  ghost predicate CleanedTo(before: seq<MPage>, table: seq<MPage>, from: nat, to: nat) {
    && |table| == |before|
    && forall w :: 0 <= w < |before| ==>
         table[w] == before[w].(createTs :=
           if before[w].cached && from <= w < to then before[w].modifiedTs else before[w].createTs)
  }

  lemma NothingCleaned(table: seq<MPage>, from: nat)
    ensures CleanedTo(table, table, from, from)
  {}

  lemma CleanedMore(before: seq<MPage>, table: seq<MPage>, from: nat, to: nat)
    requires CleanedTo(before, table, from, to) && from <= to
    ensures to >= |table| || !table[to].cached ==> CleanedTo(before, table, from, to + 1)
    ensures to < |table| && table[to].cached ==>
              CleanedTo(before, table[to := table[to].(createTs := table[to].modifiedTs)], from, to + 1)
  {}

  lemma CleanedSiblings(before: seq<MPage>, table: seq<MPage>, v: nat, perPage: nat)
    requires perPage > 0 && v < |before|
    requires CleanedTo(before, table, v - v % perPage, v - v % perPage + perPage)
    ensures |table| == |before|
    ensures forall w :: 0 <= w < |table| ==>
              table[w] == before[w].(createTs :=
                if before[w].cached && Siblings(w, v, perPage) then before[w].modifiedTs else before[w].createTs)
  {
    hide Siblings;
    forall w | 0 <= w < |table|
      ensures v - v % perPage <= w < v - v % perPage + perPage <==> Siblings(w, v, perPage)
    {
      SameQuotient(w, v, perPage);
    }
  }

  // The default drive: 262144 pages, 1365 entries to a translation page. The
  // last 64 logical pages share a translation page that is not filled.
  lemma DefaultDriveHasPartialPage(v: nat)
    requires v < 262144
    ensures Whole(v, 1365, 262144) <==> v < 262144 - 64
  {}

  // The members of FtlImpl_DftlParent that keep the page map, its reverse and
  // the cache. The layer built on it holds one of these.
  class FtlImpl_DftlParent {
    const addressPerPage: nat
    const totalCMTentries: nat
    var transMap: seq<MPage>
    // Entries never assigned are absent; the source leaves them uninitialised.
    var reverseTransMap: map<PageAddr, nat>
    var cmt: int
    // By how much cmt lags behind the number of cached entries.
    ghost var drift: int
    // Whether a sibling loop has run past the end of the map. The source
    // promises nothing from then on; this model skips the missing entries.
    ghost var overrun: bool
    // The requests and evictions so far.
    ghost var history: seq<Touch>

    ghost predicate Valid()
      reads this
    {
      && addressPerPage > 0 && totalCMTentries > 0
      && TableOk(transMap) && drift >= 0 && cmt + drift == |Cached(transMap)|
      && Recalled(transMap, history)
    }

    ghost predicate Tame()
      reads this
    {
      addressPerPage > 0 && TameTable(transMap, addressPerPage)
    }

    // Trimming the page makes the sibling loop leave the map.
    ghost predicate TrimOverruns(dlpn: nat)
      reads this
      requires addressPerPage > 0 && dlpn < |transMap|
    {
      transMap[dlpn].cached && Dirty(transMap[dlpn]) && !Whole(dlpn, addressPerPage, |transMap|)
    }

    lemma MappedIsWhole(dlpn: nat)
      requires addressPerPage > 0 && Tame() && dlpn < |transMap| && transMap[dlpn].ppn.Some?
      ensures Whole(dlpn, addressPerPage, |transMap|) && !TrimOverruns(dlpn)
    {
      hide Whole;
    }

    constructor (logical: nat, addressPerPage: nat, totalCMTentries: nat)
      requires addressPerPage > 0 && totalCMTentries > 0
      ensures Valid() && Tame() && drift == 0 && !overrun && reverseTransMap == map[] && history == []
      ensures |transMap| == logical && Ppns(transMap) == seq(logical, _ => None) && Cached(transMap) == {}
      ensures this.addressPerPage == addressPerPage && this.totalCMTentries == totalCMTentries
    {
      this.addressPerPage, this.totalCMTentries := addressPerPage, totalCMTentries;
      var table := [];
      for i := 0 to logical
        invariant |table| == i && forall v :: 0 <= v < i ==> table[v] == NewMPage(v)
      {
        table := table + [NewMPage(i)];
      }
      transMap, reverseTransMap, cmt, drift, overrun, history := table, map[], 0, 0, false, [];
      assert Cached(table) == {};
      assert Ppns(table) == seq(logical, _ => None);
    }

    // begin() of the index by last visit. Ties may be broken either way.
    method LeastRecentlyVisited() returns (v: nat)
      requires |transMap| > 0
      ensures v < |transMap| && forall w :: 0 <= w < |transMap| ==> KeyLeq(transMap[v], transMap[w])
    {
      v := 0;
      for i := 1 to |transMap|
        invariant v < |transMap| && forall w :: 0 <= w < i ==> KeyLeq(transMap[v], transMap[w])
      {
        var breakTie: bool := *;
        if !KeyLeq(transMap[v], transMap[i]) || (breakTie && KeyLeq(transMap[i], transMap[v])) {
          v := i;
        }
      }
    }

    // A dirty entry's translation page is written, with every cached sibling.
    method WriteTranslationPage(v: nat)
      requires Valid() && v < |transMap|
      modifies `transMap, `overrun
      ensures overrun == (old(overrun) || !Whole(v, addressPerPage, |transMap|))
      ensures |transMap| == old(|transMap|)
      ensures forall w :: 0 <= w < |transMap| ==>
                transMap[w] == old(transMap)[w].(createTs :=
                  if old(transMap)[w].cached && Siblings(w, v, addressPerPage) then old(transMap)[w].modifiedTs
                  else old(transMap)[w].createTs)
    {
      hide Siblings, Whole, TableOk, Cached, CleanedTo;
      var vpnBase := v - v % addressPerPage;
      TranslationPageInMap(v, addressPerPage, |transMap|);
      ghost var before := transMap;
      NothingCleaned(before, vpnBase);
      for i := 0 to addressPerPage
        invariant |transMap| == |before| && overrun == (old(overrun) || vpnBase + i > |before|)
        invariant CleanedTo(before, transMap, vpnBase, vpnBase + i)
      {
        CleanedMore(before, transMap, vpnBase, vpnBase + i);
        if vpnBase + i < |transMap| {
          var cur := transMap[vpnBase + i];
          if cur.cached {
            transMap := transMap[vpnBase + i := cur.(createTs := cur.modifiedTs)];
          }
        } else {
          overrun := true;
        }
      }
      CleanedSiblings(before, transMap, v, addressPerPage);
    }

    // Makes room in the cache: evicts least recently visited entries until
    // fewer than totalCMTentries are counted. The sibling loop leaves the map
    // exactly when a dirty entry of the page that is not filled is evicted.
    method EvictPageFromCache()
      requires Valid()
      modifies `transMap, `cmt, `overrun, `history
      ensures Valid() && LruFrom(old(transMap), transMap)
      ensures cmt == (if old(cmt) < totalCMTentries then old(cmt) else totalCMTentries - 1)
      ensures OnlyGone(old(history), history, old(cmt) - cmt) && (cmt == old(cmt) ==> transMap == old(transMap))
      ensures AllAsked(old(transMap), old(history)) ==> AllAsked(transMap, history)
      ensures overrun == (old(overrun) || LostDirty(old(transMap), transMap, addressPerPage))
      ensures old(Tame()) ==> Tame() && overrun == old(overrun)
    {
      hide TableOk, Cached, Ppns, Dirty, LostDirty, SameDirt, TameTable, LruFrom, Recalled, AllAsked, OnlyGone;
      ghost var start := transMap;
      NoneGone(history);
      NothingEvicted(start, addressPerPage);
      while cmt >= totalCMTentries
        invariant Valid() && |transMap| == |start| && LruFrom(start, transMap)
        invariant old(cmt) < totalCMTentries ==> cmt == old(cmt)
        invariant old(cmt) >= totalCMTentries ==> cmt >= totalCMTentries - 1
        invariant OnlyGone(old(history), history, old(cmt) - cmt) && (cmt == old(cmt) ==> transMap == start)
        invariant AllAsked(start, old(history)) ==> AllAsked(transMap, history)
        invariant overrun == (old(overrun) || LostDirty(start, transMap, addressPerPage))
        invariant LostDirty(start, transMap, addressPerPage) || SameDirt(start, transMap, addressPerPage)
        invariant old(Tame()) ==> Tame() && overrun == old(overrun)
        decreases cmt
      {
        ghost var before := transMap;
        OneMoreGone(old(history), history, old(cmt) - cmt);
        ghost var v := EvictOne();
        EvictedOneIsLru(start, before, v, transMap, addressPerPage);
        EvictedOneLoses(start, before, v, transMap, addressPerPage);
        if TameTable(before, addressPerPage) {
          EvictedOneTame(before, v, transMap, addressPerPage);
        }
      }
    }

    method EvictOne() returns (ghost v: nat)
      requires Valid() && cmt >= totalCMTentries
      modifies `transMap, `cmt, `overrun, `history
      ensures Valid() && cmt == old(cmt) - 1 && EvictedOne(old(transMap), v, transMap, addressPerPage)
      ensures history == old(history) + [Gone(v)]
      ensures AllAsked(old(transMap), old(history)) ==> AllAsked(transMap, history)
      ensures overrun == (old(overrun) || (Dirty(old(transMap)[v]) && !Whole(v, addressPerPage, |transMap|)))
    {
      hide Whole, Siblings, Recalled, AllAsked;
      ghost var before := transMap;
      SomeCached(before, cmt);
      var victim := LeastRecentlyVisited();
      v := victim;
      var evictPage := transMap[victim];
      assert evictPage.cached && evictPage.createTs >= 0.0 && evictPage.modifiedTs >= 0.0;
      if evictPage.createTs != evictPage.modifiedTs {
        WriteTranslationPage(victim);
      }
      cmt := cmt - 1;
      transMap := transMap[evictPage.vpn := Uncached(evictPage)];
      SpecificGone(before, v, transMap, addressPerPage);
      EvictedOneIsLeastRecent(before, v, transMap, addressPerPage, history);
      history := history + [Gone(v)];
    }

    // Looks a logical page up, bringing its entry into the cache. A write makes
    // it dirty unless it was cached and created at this very time. With the
    // cache full, entries leave until there is room for one more.
    method ResolveMapping(dlpn: nat, isWrite: bool, startTime: real)
      requires Valid() && dlpn < |transMap| && startTime >= 0.0
      modifies `transMap, `cmt, `overrun, `history
      ensures Valid() && |transMap| == old(|transMap|) && Ppns(transMap) == old(Ppns(transMap))
      ensures transMap[dlpn].cached && transMap[dlpn].lastVisited == startTime
      ensures transMap[dlpn].createTs == if old(transMap[dlpn].cached) then old(transMap[dlpn].createTs) else startTime
      ensures transMap[dlpn].modifiedTs ==
          if old(transMap[dlpn].cached) then if isWrite then startTime else old(transMap[dlpn].modifiedTs)
          else if isWrite then startTime + 1.0 else startTime
      ensures old(transMap[dlpn].cached) ==>
          cmt == old(cmt) && Cached(transMap) == old(Cached(transMap)) && overrun == old(overrun)
      ensures !old(transMap[dlpn].cached) ==>
          cmt == (if old(cmt) < totalCMTentries then old(cmt) + 1 else totalCMTentries) &&
          Cached(transMap) <= old(Cached(transMap)) + {dlpn}
      ensures forall e, w :: e in old(Cached(transMap)) - Cached(transMap) && w in Cached(transMap) - {dlpn} ==>
                old(transMap)[e].lastVisited <= old(transMap)[w].lastVisited
      ensures Requests(history) == Requests(old(history)) + [Asked(dlpn, isWrite, startTime)]
      ensures old(transMap[dlpn].cached || cmt < totalCMTentries) ==>
          && transMap == old(transMap)[dlpn := transMap[dlpn]]
          && history == old(history) + [Asked(dlpn, isWrite, startTime)]
      ensures AllAsked(old(transMap), old(history)) ==> AllAsked(transMap, history)
      ensures overrun == (old(overrun) || LostDirty(old(transMap), transMap, addressPerPage))
      ensures old(Tame()) && (isWrite ==> Whole(dlpn, addressPerPage, |transMap|)) ==> Tame() && overrun == old(overrun)
    {
      hide Whole, TableOk, Cached, Ppns, LostDirty, TameTable, Recalled, AllAsked, OnlyGone;
      if transMap[dlpn].cached {
        Revisit(dlpn, isWrite, startTime);
      } else {
        ghost var start := transMap;
        ghost var past, counted := history, cmt;
        EvictPageFromCache();
        ghost var evicted := transMap;
        OnlyGoneRequests(past, history, counted - cmt);
        FirstVisit(start, dlpn, isWrite, startTime);
        LostDirtyUpdate(start, evicted, dlpn, transMap[dlpn], addressPerPage);
        StillLru(start, evicted, dlpn, transMap[dlpn]);
      }
    }

    // The entry the source builds for a page asked for, put in place.
    method Enter(dlpn: nat, current: MPage, ghost isWrite: bool)
      requires TableOk(transMap) && Recalled(transMap, history) && addressPerPage > 0
      requires dlpn < |transMap| && current.vpn == dlpn && current.ppn == transMap[dlpn].ppn
      requires current.cached && current.createTs >= 0.0 && current.modifiedTs >= 0.0 && current.lastVisited >= 0.0
      modifies `transMap, `history
      ensures transMap == old(transMap)[dlpn := current] && TableOk(transMap) && Recalled(transMap, history)
      ensures history == old(history) + [Asked(dlpn, isWrite, current.lastVisited)]
      ensures Requests(history) == Requests(old(history)) + [Asked(dlpn, isWrite, current.lastVisited)]
      ensures AllAsked(old(transMap), old(history)) ==> AllAsked(transMap, history)
      ensures Ppns(transMap) == old(Ppns(transMap)) && Cached(transMap) == old(Cached(transMap)) + {dlpn}
      ensures |Cached(transMap)| == |old(Cached(transMap))| + (if old(transMap[dlpn].cached) then 0 else 1)
      ensures Whole(dlpn, addressPerPage, |transMap|) || !Dirty(current) ||
              old(transMap[dlpn].cached && Dirty(transMap[dlpn])) ==>
                old(Tame()) ==> Tame()
    {
      hide Whole, TableOk, Cached, Ppns, TameTable, Recalled, AllAsked, Dirty;
      ghost var before := transMap;
      TableOkUpdate(before, dlpn, current);
      CachedUpdate(before, dlpn, current);
      PpnsKept(before, dlpn, current);
      TameUpdate(before, dlpn, current, addressPerPage);
      RecalledAsked(before, history, dlpn, current, isWrite);
      OneMoreTouch(history, Asked(dlpn, isWrite, current.lastVisited));
      transMap := transMap[dlpn := current];
      if AllAsked(before, history) {
        AskedMore(before, history, Asked(dlpn, isWrite, current.lastVisited), transMap);
      }
      history := history + [Asked(dlpn, isWrite, current.lastVisited)];
    }

    method Revisit(dlpn: nat, isWrite: bool, startTime: real)
      requires Valid() && dlpn < |transMap| && startTime >= 0.0 && transMap[dlpn].cached
      modifies `transMap, `history
      ensures Valid() && Ppns(transMap) == old(Ppns(transMap)) && Cached(transMap) == old(Cached(transMap))
      ensures transMap == old(transMap)[dlpn := old(transMap)[dlpn].(
          modifiedTs := if isWrite then startTime else old(transMap)[dlpn].modifiedTs, lastVisited := startTime)]
      ensures history == old(history) + [Asked(dlpn, isWrite, startTime)]
      ensures Requests(history) == Requests(old(history)) + [Asked(dlpn, isWrite, startTime)]
      ensures AllAsked(old(transMap), old(history)) ==> AllAsked(transMap, history)
      ensures !LostDirty(old(transMap), transMap, addressPerPage)
      ensures old(Tame()) && (isWrite ==> Whole(dlpn, addressPerPage, |transMap|)) ==> Tame()
    {
      hide Whole, TableOk, Cached, Ppns, TameTable, Recalled, AllAsked;
      EntryOk(transMap, dlpn);
      var current := transMap[dlpn];
      if isWrite {
        current := current.(modifiedTs := startTime);
      }
      current := current.(lastVisited := startTime);
      assert dlpn in Cached(transMap);
      Enter(dlpn, current, isWrite);
    }

    method FirstVisit(ghost start: seq<MPage>, dlpn: nat, isWrite: bool, startTime: real)
      requires Valid() && dlpn < |transMap| == |start| && startTime >= 0.0 && !start[dlpn].cached
      requires LruFrom(start, transMap)
      modifies `transMap, `cmt, `history
      ensures Valid() && Ppns(transMap) == old(Ppns(transMap)) && cmt == old(cmt) + 1
      ensures !old(transMap[dlpn].cached)
      ensures transMap == old(transMap)[dlpn := transMap[dlpn]]
      ensures transMap[dlpn].cached && transMap[dlpn].lastVisited == startTime && transMap[dlpn].createTs == startTime
      ensures transMap[dlpn].modifiedTs == if isWrite then startTime + 1.0 else startTime
      ensures history == old(history) + [Asked(dlpn, isWrite, startTime)]
      ensures Requests(history) == Requests(old(history)) + [Asked(dlpn, isWrite, startTime)]
      ensures AllAsked(old(transMap), old(history)) ==> AllAsked(transMap, history)
      ensures old(Tame()) && (isWrite ==> Whole(dlpn, addressPerPage, |transMap|)) ==> Tame()
    {
      hide Whole, TableOk, Cached, Ppns, TameTable, Recalled, AllAsked;
      UncachedStays(start, transMap, dlpn);
      EntryOk(transMap, dlpn);
      var current := transMap[dlpn];
      current := current.(modifiedTs := startTime);
      current := current.(lastVisited := startTime);
      if isWrite {
        current := current.(modifiedTs := current.modifiedTs + 1.0);
      }
      current := current.(createTs := startTime);
      current := current.(cached := true);
      Enter(dlpn, current, isWrite);
      cmt := cmt + 1;
    }

    // Drops one entry, which the caller then puts back from a copy taken before.
    method EvictSpecificPageFromCache(lba: nat)
      requires Valid() && lba < |transMap|
      modifies `transMap, `cmt, `overrun
      ensures |transMap| == old(|transMap|) && Ppns(transMap) == old(Ppns(transMap)) && TableOk(transMap)
      ensures cmt == old(cmt) - (if old(transMap[lba].cached) then 1 else 0)
      ensures Cached(transMap) == old(Cached(transMap)) - {lba}
      ensures SiblingsCleaned(old(transMap), lba, transMap, addressPerPage)
      ensures overrun == (old(overrun) ||
                (old(transMap[lba].cached && Dirty(transMap[lba])) && !Whole(lba, addressPerPage, |transMap|)))
      ensures old(Tame()) ==> Tame()
    {
      hide Whole, Siblings, Recalled, Cached, Ppns, TableOk, TameTable;
      ghost var before := transMap;
      EntryOk(transMap, lba);
      var evictPage := transMap[lba];
      if !evictPage.cached {
        assert lba !in Cached(transMap);
        return;
      }
      if evictPage.createTs != evictPage.modifiedTs {
        WriteTranslationPage(lba);
      }
      cmt := cmt - 1;
      transMap := transMap[evictPage.vpn := Uncached(evictPage)];
      SpecificGone(before, lba, transMap, addressPerPage);
    }

    // Unmapping also stores into reverse_trans_map[-1]; that store is left out.
    method UpdateTranslationMap(mpage: MPage, ppn: Option<PageAddr>) returns (mpage': MPage)
      modifies `reverseTransMap
      ensures mpage' == mpage.(ppn := ppn)
      ensures reverseTransMap == if ppn.Some? then old(reverseTransMap)[ppn.value := mpage.vpn]
          else old(reverseTransMap)
    {
      mpage' := mpage.(ppn := ppn);
      if ppn.Some? {
        reverseTransMap := reverseTransMap[ppn.value := mpage.vpn];
      }
    }

    // The batch update that ends the cleaning of a block. Entries it touches
    // join the cache.
    method ApplyMoves(moved: map<nat, PageAddr>, startTime: real)
      requires Valid() && startTime >= 0.0 && forall v :: v in moved ==> v < |transMap|
      requires DistinctTargets(moved)
      modifies `transMap, `reverseTransMap, `cmt
      ensures Valid() && |transMap| == old(|transMap|) &&
          Remapped(old(Ppns(transMap)), moved, moved.Keys, Ppns(transMap))
      ensures Rehomed(old(reverseTransMap), moved, moved.Keys, reverseTransMap)
      ensures Repointed(old(transMap), moved, moved.Keys, startTime, transMap)
      ensures old(Tame()) && AllWhole(moved.Keys, |transMap|) ==> Tame()
    {
      ghost var table, owner := transMap, reverseTransMap;
      NoMoves(table, owner, moved, startTime);
      assert moved.Keys - moved.Keys == {} && moved.Keys - {} == moved.Keys;
      hide Valid, Tame, AllWhole, Applied, Ppns, Cached, Remapped, Rehomed, DistinctTargets,
          Repointed;
      var remaining := moved.Keys;
      while remaining != {}
        invariant Valid() && remaining <= moved.Keys && |transMap| == |table|
        invariant Applied(table, owner, moved, moved.Keys - remaining, startTime, transMap, reverseTransMap)
        invariant old(Tame()) && AllWhole(moved.Keys, |table|) ==> Tame()
        decreases |remaining|
      {
        remaining := ApplyNext(moved, remaining, startTime, table, owner);
      }
      AllApplied(table, owner, moved, startTime, transMap, reverseTransMap);
    }

    ghost predicate AllWhole(pages: set<nat>, size: nat) {
      addressPerPage > 0 && forall v :: v in pages ==> Whole(v, addressPerPage, size)
    }

    // One turn of that loop, for any page still to be moved.
    method ApplyNext(moved: map<nat, PageAddr>, remaining: set<nat>, startTime: real,
                     ghost table: seq<MPage>, ghost owner: map<PageAddr, nat>)
      returns (rest: set<nat>)
      requires Valid() && startTime >= 0.0 && |transMap| == |table| && forall v :: v in moved ==> v < |table|
      requires DistinctTargets(moved) && remaining != {} && remaining <= moved.Keys
      requires Applied(table, owner, moved, moved.Keys - remaining, startTime, transMap, reverseTransMap)
      modifies `transMap, `reverseTransMap, `cmt
      ensures Valid() && |transMap| == |table| && rest <= remaining && |rest| < |remaining|
      ensures Applied(table, owner, moved, moved.Keys - rest, startTime, transMap, reverseTransMap)
      ensures old(Tame()) && AllWhole(moved.Keys, |table|) ==> Tame()
    {
      hide Valid, Tame, Whole, Applied, Ppns, Cached, Remapped, Rehomed, DistinctTargets, Repointed;
      var realVpn :| realVpn in remaining;
      ghost var before, beforeOwner := transMap, reverseTransMap;
      ApplyMove(realVpn, moved[realVpn], startTime);
      OneMoreApplied(table, owner, moved, moved.Keys - remaining, startTime, before, beforeOwner, realVpn);
      rest := remaining - {realVpn};
      assert moved.Keys - rest == moved.Keys - remaining + {realVpn};
    }

    method ApplyMove(realVpn: nat, newPpn: PageAddr, startTime: real)
      requires Valid() && startTime >= 0.0 && realVpn < |transMap|
      modifies `transMap, `reverseTransMap, `cmt
      ensures Valid() && |transMap| == old(|transMap|)
      ensures transMap == old(transMap)[realVpn := old(transMap)[realVpn].(
          ppn := Some(newPpn), modifiedTs := startTime, cached := true,
          createTs := if old(transMap)[realVpn].cached then old(transMap)[realVpn].createTs else startTime)]
      ensures reverseTransMap == old(reverseTransMap)[newPpn := realVpn]
      ensures old(Tame()) && Whole(realVpn, addressPerPage, |transMap|) ==> Tame()
    {
      hide Whole, TableOk, Cached, TameTable, Recalled;
      EntryOk(transMap, realVpn);
      var current := transMap[realVpn];
      current := UpdateTranslationMap(current, Some(newPpn));
      if current.cached {
        current := current.(modifiedTs := startTime);
      } else {
        current := current.(modifiedTs := startTime, createTs := startTime, cached := true);
        cmt := cmt + 1;
      }
      TableOkUpdate(transMap, realVpn, current);
      CachedUpdate(transMap, realVpn, current);
      TameUpdate(transMap, realVpn, current, addressPerPage);
      RecalledKept(transMap, history, realVpn, current);
      transMap := transMap[realVpn := current];
    }

    // Points one logical page at a new physical page.
    method Remap(dlpn: nat, ppn: PageAddr)
      requires Valid() && dlpn < |transMap|
      modifies `transMap, `reverseTransMap
      ensures Valid() && |transMap| == old(|transMap|) && Cached(transMap) == old(Cached(transMap))
      ensures Ppns(transMap) == old(Ppns(transMap))[dlpn := Some(ppn)]
      ensures reverseTransMap == old(reverseTransMap)[ppn := dlpn]
      ensures transMap == old(transMap)[dlpn := old(transMap)[dlpn].(ppn := Some(ppn))]
      ensures old(Tame()) && Whole(dlpn, addressPerPage, |transMap|) ==> Tame()
    {
      hide Whole, TableOk, Cached, Ppns, TameTable, Recalled;
      EntryOk(transMap, dlpn);
      var current := transMap[dlpn];
      current := UpdateTranslationMap(current, Some(ppn));
      TableOkUpdate(transMap, dlpn, current);
      CachedUpdate(transMap, dlpn, current);
      PpnsUpdate(transMap, dlpn, current);
      TameUpdate(transMap, dlpn, current, addressPerPage);
      RecalledKept(transMap, history, dlpn, current);
      transMap := transMap[dlpn := current];
    }

    // Trim: the entry is evicted, then put back from a copy that still says it
    // is cached, so cmt falls behind by one when it was. The sibling loop leaves
    // the map exactly when the entry is dirty and its page is not filled.
    method Unmap(dlpn: nat)
      requires Valid() && dlpn < |transMap|
      modifies `transMap, `reverseTransMap, `cmt, `drift, `overrun
      ensures Valid() && |transMap| == old(|transMap|) && Cached(transMap) == old(Cached(transMap))
      ensures Ppns(transMap) == old(Ppns(transMap))[dlpn := None] && reverseTransMap == old(reverseTransMap)
      ensures transMap[dlpn] == old(transMap)[dlpn].(ppn := None) &&
          SiblingsCleaned(old(transMap), dlpn, transMap, addressPerPage)
      ensures drift == old(drift) + (if old(transMap[dlpn].cached) then 1 else 0)
      ensures overrun == (old(overrun) || old(TrimOverruns(dlpn)))
      ensures old(Tame()) && Whole(dlpn, addressPerPage, |transMap|) ==> Tame() && overrun == old(overrun)
    {
      hide TableOk, Cached, Ppns, Whole, Recalled, SiblingsCleaned, Dirty, TameTable;
      ghost var before := transMap;
      var current := transMap[dlpn];
      EntryOk(transMap, dlpn);
      EvictSpecificPageFromCache(dlpn);
      current := UpdateTranslationMap(current, None);
      TableOkUpdate(transMap, dlpn, current);
      CachedUpdate(transMap, dlpn, current);
      PpnsUpdate(transMap, dlpn, current);
      TameUpdate(transMap, dlpn, current, addressPerPage);
      PutBack(before, history, dlpn, transMap, current, addressPerPage);
      transMap := transMap[dlpn := current];
      drift := drift + (if current.cached then 1 else 0);
    }
  }

  // A page of the map's unfilled translation page, written and then trimmed: the
  // sibling loop of the trim leaves the map.
  method TrimLeavesMap(logical: nat, addressPerPage: nat, v: nat, ppn: PageAddr) returns (parent: FtlImpl_DftlParent)
    requires addressPerPage > 0 && v < logical && !Whole(v, addressPerPage, logical)
    ensures parent.Valid() && parent.overrun
  {
    hide Whole;
    parent := new FtlImpl_DftlParent(logical, addressPerPage, addressPerPage);
    assert v !in Cached(parent.transMap);
    parent.ResolveMapping(v, true, 0.0);
    parent.Remap(v, ppn);
    parent.Unmap(v);
  }

  // Any requests from an empty cache: whatever leaves was asked for before, and
  // no later than anything that stays.
  method PowerOnAndResolve(logical: nat, addressPerPage: nat, totalCMTentries: nat, requests: seq<Touch>)
    returns (parent: FtlImpl_DftlParent)
    requires addressPerPage > 0 && totalCMTentries > 0
    requires forall i :: 0 <= i < |requests| ==>
        requests[i].Asked? && requests[i].page < logical && requests[i].time >= 0.0
    ensures parent.Valid() && Requests(parent.history) == requests && |Cached(parent.transMap)| <= totalCMTentries
    ensures forall v :: 0 <= v < |parent.transMap| ==>
        (parent.transMap[v].cached <==> Standing(parent.history, v).Some?)
    ensures LeftInOrder(parent.history)
  {
    hide TableOk, Cached, Ppns, Recalled, AllAsked, LostDirty, Whole, TameTable;
    parent := new FtlImpl_DftlParent(logical, addressPerPage, totalCMTentries);
    NobodyAsked(parent.transMap);
    for i := 0 to |requests|
      invariant parent.Valid() && fresh(parent) && |parent.transMap| == logical && parent.drift == 0
      invariant parent.totalCMTentries == totalCMTentries && parent.cmt <= totalCMTentries
      invariant Requests(parent.history) == requests[..i] && AllAsked(parent.transMap, parent.history)
    {
      parent.ResolveMapping(requests[i].page, requests[i].isWrite, requests[i].time);
      assert requests[..i + 1] == requests[..i] + [requests[i]];
    }
    assert requests[..|requests|] == requests;
    AllLeftInOrder(parent.transMap, parent.history);
  }

  lemma NobodyAsked(table: seq<MPage>)
    requires Cached(table) == {}
    ensures AllAsked(table, [])
  {
    assert forall v :: 0 <= v < |table| && table[v].cached ==> v in Cached(table);
  }

  lemma AllLeftInOrder(table: seq<MPage>, history: seq<Touch>)
    requires Recalled(table, history) && AllAsked(table, history)
    ensures forall v :: 0 <= v < |table| ==> (table[v].cached <==> Standing(history, v).Some?)
    ensures LeftInOrder(history)
  {
    forall i, w: nat | 0 <= i < |history| && history[i].Gone? && Standing(history[..i], w).Some?
      ensures LeftBefore(history, i, w)
    {
      LeavesInOrder(history, i, w);
    }
  }

  ghost predicate DistinctTargets(moved: map<nat, PageAddr>) {
    forall v, w :: v in moved && w in moved && v != w ==> moved[v] != moved[w]
  }

  // Each entry of `done` points at the page it moved to, was modified now, and
  // is cached. The others have not changed.
  ghost predicate Repointed(table: seq<MPage>, moved: map<nat, PageAddr>, done: set<nat>, startTime: real,
                            table': seq<MPage>)
    requires done <= moved.Keys
  {
    && |table'| == |table|
    && forall v :: 0 <= v < |table| ==>
         table'[v] ==
         if v in done then
           table[v].(ppn := Some(moved[v]), modifiedTs := startTime, cached := true,
                     createTs := if table[v].cached then table[v].createTs else startTime)
         else table[v]
  }

  // Entries keep their times, or were modified at the given one; those that were
  // not cached then joined the cache. Their mappings may have changed.
  ghost predicate Touched(before: seq<MPage>, startTime: real, after: seq<MPage>) {
    && |after| == |before|
    && forall v :: 0 <= v < |before| ==>
         || after[v] == before[v].(ppn := after[v].ppn)
         || after[v] == before[v].(ppn := after[v].ppn, modifiedTs := startTime, cached := true,
                                   createTs := if before[v].cached then before[v].createTs else startTime)
  }

  lemma RepointedIsTouched(table: seq<MPage>, moved: map<nat, PageAddr>, startTime: real, after: seq<MPage>)
    requires Repointed(table, moved, moved.Keys, startTime, after)
    ensures Touched(table, startTime, after)
  {}

  lemma NotTouched(table: seq<MPage>, startTime: real)
    ensures Touched(table, startTime, table)
  {}

  lemma TouchedMore(before: seq<MPage>, startTime: real, table: seq<MPage>, after: seq<MPage>)
    requires Touched(before, startTime, table) && Touched(table, startTime, after)
    ensures Touched(before, startTime, after)
  {}

  lemma TouchedRemap(before: seq<MPage>, startTime: real, table: seq<MPage>, v: nat, ppn: Option<PageAddr>)
    requires Touched(before, startTime, table) && v < |before|
    ensures |table| == |before| && Touched(before, startTime, table[v := table[v].(ppn := ppn)])
  {}

  // The table and the reverse map once the moves of `done` have been applied.
  ghost predicate Applied(table: seq<MPage>, owner: map<PageAddr, nat>, moved: map<nat, PageAddr>, done: set<nat>,
                          startTime: real, table': seq<MPage>, owner': map<PageAddr, nat>) {
    done <= moved.Keys && Repointed(table, moved, done, startTime, table') && Rehomed(owner, moved, done, owner')
  }

  lemma NoMoves(table: seq<MPage>, owner: map<PageAddr, nat>, moved: map<nat, PageAddr>, startTime: real)
    ensures Applied(table, owner, moved, {}, startTime, table, owner)
  {}

  lemma OneMoreApplied(table: seq<MPage>, owner: map<PageAddr, nat>, moved: map<nat, PageAddr>, done: set<nat>,
                       startTime: real, before: seq<MPage>, beforeOwner: map<PageAddr, nat>, v: nat)
    requires Applied(table, owner, moved, done, startTime, before, beforeOwner) && v in moved && v < |before|
    requires DistinctTargets(moved) && v !in done
    ensures var after := before[v := before[v].(
                ppn := Some(moved[v]), modifiedTs := startTime, cached := true,
                createTs := if before[v].cached then before[v].createTs else startTime)];
            Applied(table, owner, moved, done + {v}, startTime, after, beforeOwner[moved[v] := v])
  {
    RehomedMore(owner, moved, done, v, beforeOwner);
    hide Rehomed, DistinctTargets;
  }

  lemma AllApplied(table: seq<MPage>, owner: map<PageAddr, nat>, moved: map<nat, PageAddr>, startTime: real,
                   table': seq<MPage>, owner': map<PageAddr, nat>)
    requires Applied(table, owner, moved, moved.Keys, startTime, table', owner')
    ensures Remapped(Ppns(table), moved, moved.Keys, Ppns(table')) && Rehomed(owner, moved, moved.Keys, owner')
    ensures Repointed(table, moved, moved.Keys, startTime, table')
  {
    hide Rehomed;
  }

  lemma PpnsLength(table: seq<MPage>)
    ensures |Ppns(table)| == |table|
  {}

  lemma RehomedMore(before: map<PageAddr, nat>, moved: map<nat, PageAddr>, done: set<nat>, v: nat,
                    owner: map<PageAddr, nat>)
    requires done <= moved.Keys && v in moved && Rehomed(before, moved, done, owner)
    requires DistinctTargets(moved)
    ensures Rehomed(before, moved, done + {v}, owner[moved[v] := v])
  {}

  lemma PpnsKept(table: seq<MPage>, v: nat, m: MPage)
    requires v < |table| && m.ppn == table[v].ppn
    ensures Ppns(table[v := m]) == Ppns(table)
  {}

  lemma TameUpdate(table: seq<MPage>, v: nat, m: MPage, perPage: nat)
    requires perPage > 0 && v < |table|
    ensures var same := m.ppn == table[v].ppn && (m.cached ==> !Dirty(m) || (table[v].cached && Dirty(table[v])));
            TameTable(table, perPage) && (Whole(v, perPage, |table|) || same) ==> TameTable(table[v := m], perPage)
  {}

  // An entry that was not cached is as it was, however many others were evicted.
  lemma UncachedStays(start: seq<MPage>, table: seq<MPage>, v: nat)
    requires LruFrom(start, table) && v < |start| && !start[v].cached
    ensures !table[v].cached && table[v].ppn == start[v].ppn
  {
    assert v !in Cached(start);
    assert v !in Cached(table);
    assert Ppns(table)[v] == table[v].ppn && Ppns(start)[v] == start[v].ppn;
  }

  lemma LostDirtyUpdate(start: seq<MPage>, table: seq<MPage>, v: nat, m: MPage, perPage: nat)
    requires perPage > 0 && |start| == |table| && v < |start| && !start[v].cached
    ensures LostDirty(start, table[v := m], perPage) <==> LostDirty(start, table, perPage)
  {
    if LostDirty(start, table, perPage) {
      var e :| 0 <= e < |start| && start[e].cached && !table[e].cached && Dirty(start[e]) &&
        !Whole(e, perPage, |start|);
      assert !table[v := m][e].cached;
    }
  }

  lemma StillLru(start: seq<MPage>, table: seq<MPage>, v: nat, m: MPage)
    requires LruFrom(start, table) && v < |start| && !start[v].cached && m.cached
    ensures Cached(table[v := m]) <= Cached(start) + {v}
    ensures forall e, w :: e in Cached(start) - Cached(table[v := m]) && w in Cached(table[v := m]) - {v} ==>
              start[e].lastVisited <= start[w].lastVisited
  {}

  lemma EntryOk(table: seq<MPage>, v: nat)
    requires TableOk(table) && v < |table|
    ensures table[v].vpn == v && (table[v].cached ==> table[v].createTs >= 0.0 && table[v].modifiedTs >= 0.0)
    ensures table[v].cached <==> v in Cached(table)
  {}

  lemma TableOkUpdate(table: seq<MPage>, v: nat, m: MPage)
    requires TableOk(table) && v < |table| && m.vpn == v && (m.cached ==> m.createTs >= 0.0 && m.modifiedTs >= 0.0)
    ensures TableOk(table[v := m])
  {}

  ghost predicate Remapped(before: seq<Option<PageAddr>>, moved: map<nat, PageAddr>, done: set<nat>,
                           after: seq<Option<PageAddr>>)
    requires done <= moved.Keys
  {
    |after| == |before| && forall v :: 0 <= v < |after| ==> after[v] == if v in done then Some(moved[v]) else before[v]
  }

  ghost predicate Rehomed(before: map<PageAddr, nat>, moved: map<nat, PageAddr>, done: set<nat>,
                          after: map<PageAddr, nat>)
    requires done <= moved.Keys
  {
    && (forall v :: v in done ==> moved[v] in after && after[moved[v]] == v)
    && (forall a :: (forall v :: v in done ==> moved[v] != a) ==>
      (a in after <==> a in before) && (a in before ==> after[a] == before[a]))
  }
}
