/**
 ServiceSearch requests (libbtstack sdp.c): a page of record handles at a time, in
 list order. Section 4.5 of Bluetooth Core 4.0, volume 3, part B.
 */
module SdpSearch {
  import opened Bytes
  import opened Sdp

  /** The handles of all matching records. */
  function Handles(services: seq<Record>): seq<word> {
    if services == [] then []
    else (if services[0].matching then [services[0].handle] else []) + Handles(services[1..])
  }

  /**
   The loop over the records, from record i on. `matched` counts the records that
   match so far, `stored` those put into the page; the page ends when the total is
   reached or the page is full.
   */
  function Scan(services: Services, i: nat, from: half, total: nat, room: nat, matched: nat, stored: nat)
    : (seq<word>, Option<half>)
    requires i <= |services|
    decreases |services| - i
  {
    if i == |services| then ([], None)
    else if !services[i].matching then Scan(services, i + 1, from, total, room, matched, stored)
    else if i < from as nat then Scan(services, i + 1, from, total, room, matched + 1, stored)
    else if matched + 1 >= total then ([services[i].handle], None)
    else if stored + 1 >= room then ([services[i].handle], Some(Low16(i + 1)))
    else
      var (more, next) := Scan(services, i + 1, from, total, room, matched + 1, stored + 1);
      ([services[i].handle] + more, next)
  }

  /** The number of handles that a search has to return. */
  function Total(services: seq<Record>, maximum: half): nat {
    Min(|Handles(services)|, maximum)
  }

  /** The handles of one page, and the record that the next one starts with. */
  function SearchPage(services: Services, maximum: half, room: nat, from: half): (seq<word>, Option<half>) {
    Scan(services, 0, from, Total(services, maximum), room, 0, 0)
  }

  lemma HandlesFrom(services: seq<Record>, i: nat)
    requires i < |services|
    ensures Handles(services[i..])
         == (if services[i].matching then [services[i].handle] else []) + Handles(services[i + 1..])
  {
    assert services[i..][1..] == services[i + 1..];
  }

  /** Handles of records before record i. */
  function Before(services: seq<Record>, i: nat): int
    requires i <= |services|
  {
    |Handles(services)| - |Handles(services[i..])|
  }

  lemma TakeFront<T>(h: T, later: seq<T>, k: nat)
    requires 1 <= k <= 1 + |later|
    ensures ([h] + later)[..k] == [h] + later[..k - 1] && ([h] + later)[k..] == later[k - 1..]
  {
  }

  /** A page of k handles from record i on, and where it leaves off. */
  predicate Takes(services: Services, i: nat, k: nat, due: nat, r: (seq<word>, Option<half>))
    requires i <= |services|
  {
    var all := Handles(services[i..]);
    && k <= due <= |all| && r.0 == all[..k] && (r.1 == None <==> k == due)
    && match r.1
       case None => true
       case Some(next) => i < next as nat <= |services| && Handles(services[next..]) == all[k..]
  }

  lemma {:induction false} TakesSkip(services: Services, i: nat, k: nat, due: nat, r: (seq<word>, Option<half>))
    requires i < |services| && !services[i].matching && Takes(services, i + 1, k, due, r)
    ensures Takes(services, i, k, due, r)
  {
    HandlesFrom(services, i);
    hide Handles;
    assert [] + Handles(services[i + 1..]) == Handles(services[i + 1..]);
  }

  lemma {:induction false} TakesOne(services: Services, i: nat, k: nat, due: nat, r: (seq<word>, Option<half>))
    requires i < |services| && services[i].matching && Takes(services, i + 1, k, due, r)
    ensures Takes(services, i, k + 1, due + 1, ([services[i].handle] + r.0, r.1))
  {
    HandlesFrom(services, i);
    hide Handles;
    TakeFront(services[i].handle, Handles(services[i + 1..]), k + 1);
  }

  /** From the record where a page starts on, the next handles are taken, up to the total or the page's room. */
  lemma {:induction false} ScanTakes(services: Services, i: nat, from: half, total: nat, room: nat, matched: nat, stored: nat)
    requires from as nat <= i <= |services| && matched < total <= matched + |Handles(services[i..])| && stored < room
    ensures Takes(services, i, Min(total - matched, room - stored), total - matched,
                  Scan(services, i, from, total, room, matched, stored))
    decreases |services| - i
  {
    hide Low16;
    assert services[i..] == [] || i < |services|;
    HandlesFrom(services, i);
    hide Handles;
    if !services[i].matching {
      hide Takes;
      assert [] + Handles(services[i + 1..]) == Handles(services[i + 1..]);
      ScanTakes(services, i + 1, from, total, room, matched, stored);
      TakesSkip(services, i, Min(total - matched, room - stored), total - matched,
                Scan(services, i, from, total, room, matched, stored));
    } else if matched + 1 < total && stored + 1 < room {
      hide Takes;
      ScanTakes(services, i + 1, from, total, room, matched + 1, stored + 1);
      TakesOne(services, i, Min(total - matched - 1, room - stored - 1), total - matched - 1,
               Scan(services, i + 1, from, total, room, matched + 1, stored + 1));
    } else {
      Low16Small(i + 1);
      TakeFront(services[i].handle, Handles(services[i + 1..]), 1);
    }
  }

  /** No page has more handles than there is room for. */
  lemma {:induction false} ScanFits(services: Services, i: nat, from: half, total: nat, room: nat, matched: nat, stored: nat)
    requires i <= |services| && stored < room
    ensures |Scan(services, i, from, total, room, matched, stored).0| <= room - stored
    decreases |services| - i
  {
    hide Low16;
    if i == |services| {
    } else if !services[i].matching {
      ScanFits(services, i + 1, from, total, room, matched, stored);
    } else if i < from as nat {
      ScanFits(services, i + 1, from, total, room, matched + 1, stored);
    } else if matched + 1 < total && stored + 1 < room {
      ScanFits(services, i + 1, from, total, room, matched + 1, stored + 1);
    }
  }

  /** Before that record the loop only counts. */
  lemma {:induction false} ScanCounts(services: Services, i: nat, from: half, total: nat, room: nat, matched: nat)
    requires i <= from as nat <= |services|
    ensures var m := matched + |Handles(services[i..])| - |Handles(services[from..])|;
            m >= matched && Scan(services, i, from, total, room, matched, 0) == Scan(services, from, from, total, room, m, 0)
    decreases from as nat - i
  {
    if i < from as nat {
      HandlesFrom(services, i);
      hide Handles;
      ScanCounts(services, i + 1, from, total, room, if services[i].matching then matched + 1 else matched);
    }
  }

  /** One page holds the next handles, as many as are due and fit. */
  lemma PageTakes(services: Services, maximum: half, room: nat, from: half)
    requires from as nat <= |services| && room >= 1 && Before(services, from) < Total(services, maximum)
    ensures var (page, next) := SearchPage(services, maximum, room, from);
            var due := Total(services, maximum) - Before(services, from);
            var k := Min(due, room);
            && page == Handles(services[from..])[..k] && |page| == k
            && (next == None <==> due <= room)
            && (next.Some? ==> from < next.value && next.value as nat <= |services|)
            && (next.Some? ==> Handles(services[next.value..]) == Handles(services[from..])[k..])
  {
    hide Scan, Handles;
    assert services[0..] == services;
    ScanCounts(services, 0, from, Total(services, maximum), room, 0);
    ScanTakes(services, from, from, Total(services, maximum), room, Before(services, from), 0);
  }

  /** A client that asks for page after page; `rooms` are the handles that fit each of them. */
  function Follow(services: Services, maximum: half, from: half, rooms: seq<nat>): (seq<seq<word>>, Option<half>)
    decreases |rooms|
  {
    if rooms == [] then ([], Some(from))
    else
      var (page, next) := SearchPage(services, maximum, rooms[0], from);
      if next == None then ([page], None)
      else
        var (more, end) := Follow(services, maximum, next.value, rooms[1..]);
        ([page] + more, end)
  }

  function Join(pages: seq<seq<word>>): seq<word> {
    if pages == [] then [] else pages[0] + Join(pages[1..])
  }

  predicate Fit(pages: seq<seq<word>>, rooms: seq<nat>) {
    |pages| <= |rooms| && forall i :: 0 <= i < |pages| ==> |pages[i]| <= rooms[i]
  }

  predicate Positive(rooms: seq<nat>) {
    forall i :: 0 <= i < |rooms| ==> rooms[i] >= 1
  }

  lemma {:induction false} FollowFrom(services: Services, maximum: half, from: half, rooms: seq<nat>)
    requires from as nat <= |services| && Positive(rooms) && Before(services, from) < Total(services, maximum)
    ensures var (pages, end) := Follow(services, maximum, from, rooms);
            var due := Handles(services[from..])[..Total(services, maximum) - Before(services, from)];
            && Fit(pages, rooms)
            && (end == None ==> Join(pages) == due)
            && (end.Some? ==> Join(pages) <= due && |rooms| <= |Join(pages)| < |due|)
    decreases |rooms|
  {
    if rooms == [] {
    } else {
      PageTakes(services, maximum, rooms[0], from);
      var (page, next) := SearchPage(services, maximum, rooms[0], from);
      var due := Total(services, maximum) - Before(services, from);
      hide SearchPage, Handles, Total;
      if next == None {
        assert Join([page]) == page + Join([]) == page;
      } else {
        FollowFrom(services, maximum, next.value, rooms[1..]);
        var (more, end) := Follow(services, maximum, next.value, rooms[1..]);
        assert ([page] + more)[1..] == more;
        TakeMore(Handles(services[from..]), |page|, due, Join(more));
      }
    }
  }

  lemma TakeMore<T>(all: seq<T>, k: nat, due: nat, more: seq<T>)
    requires k <= due <= |all|
    ensures more == all[k..][..due - k] ==> all[..k] + more == all[..due]
    ensures more <= all[k..][..due - k] ==> all[..k] + more <= all[..due]
  {
  }

  /**
   The pages of a search put together are the first handles in list order, as many
   as there are and the client wants, each exactly once; and the client is done
   after at most one page for each of them.
   */
  lemma PagesMakeTheList(services: Services, maximum: half, rooms: seq<nat>)
    requires maximum >= 1 && rooms != [] && Positive(rooms)
    ensures var (pages, end) := Follow(services, maximum, 0, rooms);
            var wanted := Handles(services)[..Total(services, maximum)];
            && Fit(pages, rooms) && Join(pages) <= wanted
            && (end == None ==> Join(pages) == wanted)
            && (|rooms| >= |wanted| ==> end == None)
  {
    assert services[0..] == services;
    if Handles(services) == [] {
      NoHandles(services, 0, 0, rooms[0]);
      assert Join([[]]) == [] + Join([]) == [];
    } else {
      FollowFrom(services, maximum, 0, rooms);
    }
  }

  lemma {:induction false} NoHandles(services: Services, i: nat, total: nat, room: nat)
    requires i <= |services| && Handles(services[i..]) == []
    ensures Scan(services, i, 0, total, room, 0, 0) == ([], None)
    decreases |services| - i
  {
    if i < |services| {
      HandlesFrom(services, i);
      NoHandles(services, i + 1, total, room);
    }
  }

  /** A client that asks for no handles at all gets one, if there is one. */
  lemma ZeroMaximum(services: Services, room: nat)
    ensures var (page, next) := SearchPage(services, 0, room, 0);
            page == Handles(services)[..Total(services, 0)] <==> Handles(services) == []
  {
    assert services[0..] == services;
    FirstHandle(services, 0, room);
  }

  lemma {:induction false} FirstHandle(services: Services, i: nat, room: nat)
    requires i <= |services|
    ensures Scan(services, i, 0, 0, room, 0, 0).0 == if Handles(services[i..]) == [] then [] else [Handles(services[i..])[0]]
    decreases |services| - i
  {
    if i < |services| {
      HandlesFrom(services, i);
      FirstHandle(services, i + 1, room);
    }
  }
}
