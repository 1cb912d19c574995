/**
 The service discovery server (libbtstack sdp.c and the attribute filter of
 sdp_util.c): sections 4.5 and 4.7 of Bluetooth Core 4.0, volume 3, part B. A long
 answer goes out in pages; the continuation state in each page says where the
 next one starts.

 The list of services is a sequence here, and whether a record matches the search
 pattern and an attribute is asked for is recorded in it.
 */
module Sdp {
  import opened Bytes

  /** One attribute of a record; `wanted` when its identifier is in the request's list. */
  datatype Attribute = Attribute(id: half, value: seq<byte>, wanted: bool)

  function Net16(n: half): (b: seq<byte>)
    ensures |b| == 2
  {
    [n / 0x100, n % 0x100]
  }

  function AttributeBytes(a: Attribute): seq<byte> {
    if a.wanted then [0x09] + Net16(a.id) + a.value else []
  }

  /** The part of a record that the request asks for. */
  function Filtered(attributes: seq<Attribute>): seq<byte> {
    if attributes == [] then [] else AttributeBytes(attributes[0]) + Filtered(attributes[1..])
  }

  /** Records are data elements with a two-byte length. */
  type Attributes = s: seq<Attribute> | |Filtered(s)| < 0x1_0000

  datatype Record = Record(handle: word, matching: bool, attributes: Attributes)

  type Services = s: seq<Record> | |s| < 0x1_0000

  // ------------------------------------------------------------ the attribute filter

  /** Copying that starts at an offset and stops at a limit; `copied` is what it has stored. */
  datatype Context = Context(startOffset: nat, maxBytes: nat, copied: seq<byte>, complete: bool)

  function AppendRange(c: Context, data: seq<byte>): Context
    requires c.startOffset <= |data|
  {
    var rest := |data| - c.startOffset;
    var n := if c.maxBytes < rest then c.maxBytes else rest;
    Context(0, c.maxBytes - n, c.copied + data[c.startOffset..c.startOffset + n], c.maxBytes >= rest)
  }

  /** One attribute of the traversal, identifier first and then value. */
  function FilterOne(c: Context, a: Attribute): Context {
    if !a.wanted then c
    else
      var d := if c.startOffset >= 3 then c.(startOffset := c.startOffset - 3)
               else AppendRange(c, [0x09] + Net16(a.id));
      if !d.complete then d
      else if d.startOffset >= |a.value| then d.(startOffset := d.startOffset - |a.value|)
      else AppendRange(d, a.value)
  }

  /** The traversal, which stops when the limit has cut something off. */
  function FilterAll(c: Context, attributes: seq<Attribute>): Context
    decreases |attributes|
  {
    if attributes == [] || !c.complete then c else FilterAll(FilterOne(c, attributes[0]), attributes[1..])
  }

  function Min(a: nat, b: nat): nat {
    if a < b then a else b
  }

  /** What copying does to a stretch of bytes when the offset reaches into it or just behind it. */
  predicate Copies(c: Context, d: Context, data: seq<byte>) {
    if c.startOffset >= |data| then d == c.(startOffset := c.startOffset - |data|)
    else
      var n := Min(c.maxBytes, |data| - c.startOffset);
      && d.copied == c.copied + data[c.startOffset..c.startOffset + n]
      && d.complete == (c.maxBytes >= |data| - c.startOffset)
      && d.maxBytes == c.maxBytes - n && d.startOffset == 0
  }

  lemma CopiesBehind(c: Context, d: Context, e: Context, a: seq<byte>, b: seq<byte>)
    requires c.complete && c.startOffset >= |a| && Copies(c, d, a) && Copies(d, e, b)
    ensures Copies(c, e, a + b)
  {
    assert (a + b)[|a|..] == b;
    var s := c.startOffset - |a|;
    if s < |b| {
      var n := Min(c.maxBytes, |b| - s);
      assert (a + b)[c.startOffset..c.startOffset + n] == b[s..s + n];
    }
  }

  lemma CopiesAcross(c: Context, d: Context, e: Context, a: seq<byte>, b: seq<byte>)
    requires c.complete && c.startOffset < |a| && Copies(c, d, a) && d.complete && Copies(d, e, b)
    ensures Copies(c, e, a + b)
  {
    if b == [] {
      assert a + b == a;
    } else {
      var n := Min(d.maxBytes, |b|);
      assert (a + b)[c.startOffset..|a| + n] == a[c.startOffset..] + b[..n];
      assert a[c.startOffset..|a|] == a[c.startOffset..] && b[0..n] == b[..n];
      ConcatAssoc(c.copied, a[c.startOffset..], b[..n]);
    }
  }

  /** Two stretches one after the other are one stretch. */
  lemma CopiesTwo(c: Context, d: Context, e: Context, a: seq<byte>, b: seq<byte>)
    requires c.complete && Copies(c, d, a) && if d.complete then Copies(d, e, b) else e == d
    ensures Copies(c, e, a + b)
  {
    if c.startOffset >= |a| {
      CopiesBehind(c, d, e, a, b);
    } else if d.complete {
      CopiesAcross(c, d, e, a, b);
    } else {
      assert (a + b)[c.startOffset..c.startOffset + c.maxBytes] == a[c.startOffset..c.startOffset + c.maxBytes];
    }
  }

  lemma FilterOneCopies(c: Context, a: Attribute)
    requires c.complete
    ensures Copies(c, FilterOne(c, a), AttributeBytes(a))
  {
    if a.wanted {
      var id := [0x09] + Net16(a.id);
      var d := if c.startOffset >= 3 then c.(startOffset := c.startOffset - 3) else AppendRange(c, id);
      CopiesTwo(c, d, FilterOne(c, a), id, a.value);
    }
  }

  lemma {:induction false} FilterAllCopies(c: Context, attributes: seq<Attribute>)
    requires c.complete
    ensures Copies(c, FilterAll(c, attributes), Filtered(attributes))
    decreases |attributes|
  {
    if attributes != [] {
      FilterOneCopies(c, attributes[0]);
      var d := FilterOne(c, attributes[0]);
      if d.complete { FilterAllCopies(d, attributes[1..]); } else { assert FilterAll(d, attributes[1..]) == d; }
      CopiesTwo(c, d, FilterAll(c, attributes), AttributeBytes(attributes[0]), Filtered(attributes[1..]));
    }
  }

  /** sdp_filter_attributes_in_attributeIDList: the bytes stored, and whether nothing was cut off. */
  function Filter(attributes: seq<Attribute>, offset: nat, max: nat): (seq<byte>, bool) {
    var c := FilterAll(Context(offset, max, [], true), attributes);
    (c.copied, c.complete)
  }

  /** The longest slice from the offset that fits; complete exactly when everything fits. */
  lemma FilterIsSlice(attributes: seq<Attribute>, offset: nat, max: nat)
    requires offset <= |Filtered(attributes)|
    ensures var all := Filtered(attributes);
            var n := Min(max, |all| - offset);
            Filter(attributes, offset, max) == (all[offset..offset + n], max >= |all| - offset)
  {
    FilterAllCopies(Context(offset, max, [], true), attributes);
    hide Filtered, FilterAll;
    var all := Filtered(attributes);
    if offset < |all| {
      var n := Min(max, |all| - offset);
      assert [] + all[offset..offset + n] == all[offset..offset + n];
    }
  }

  // ------------------------------------------- one page of ServiceSearchAttribute

  /** Where the next page starts: a record and an offset into its attributes. */
  datatype Cont = Cont(index: half, offset: half)

  function Minus16(a: half, b: nat): half
    requires b <= 0xFFFF
  {
    if a < b then a + 0x1_0000 - b else a - b
  }

  /** What is left of a number in sixteen bits. */
  function Low16(n: nat): half {
    n % 0x1_0000
  }

  lemma Low16Small(n: nat)
    requires n < 0x1_0000
    ensures Low16(n) == n
  {
  }

  /** A data element sequence of the given size, without its content. */
  function Des(size: half): (b: seq<byte>)
    ensures |b| == 3
  {
    [0x36] + Net16(size)
  }

  function Size(r: Record): half {
    |Filtered(r.attributes)|
  }

  /**
   The loop over the records, from record i on: what is stored, and the continuation. The
   source adds the header to the size in sixteen bits, which makes no difference below
   65533 bytes.
   */
  function Fill(services: Services, i: nat, first: Cont, offset: half, max: half, firstAnswer: bool)
    : (r: (seq<byte>, Option<Cont>))
    requires i <= |services|
    decreases |services| - i
  {
    if i == |services| then ([], None)
    else if i < first.index as nat || !services[i].matching then Fill(services, i + 1, first, offset, max, firstAnswer)
    else if offset == 0 && Size(services[i]) + 3 > max && !firstAnswer then ([], Some(Cont(i, 0)))
    else
      var head := if offset == 0 then Des(Size(services[i])) else [];
      var room := Minus16(max, |head|);
      var (bytes, complete) := Filter(services[i].attributes, offset, room);
      if !complete then (head + bytes, Some(Cont(i, Low16(offset + |bytes|))))
      else
        var (more, next) := Fill(services, i + 1, first, 0, Minus16(room, Low16(|bytes|)), false);
        (head + bytes + more, next)
  }

  /** The attribute lists of all matching records, without the element around them. */
  function Lists(services: seq<Record>): seq<byte> {
    if services == [] then []
    else (if services[0].matching then Des(Size(services[0])) + Filtered(services[0].attributes) else [])
         + Lists(services[1..])
  }

  /** sdp_get_size_for_service_search_attribute_response, in sixteen bits. */
  function TotalSize(services: seq<Record>): half {
    if services == [] then 0
    else Low16((if services[0].matching then 3 + Size(services[0]) else 0) + TotalSize(services[1..]))
  }

  predicate IsFirst(c: Cont) {
    c == Cont(0, 0)
  }

  /** The body of one page, and where the next one starts. */
  function Page(services: Services, limit: half, c: Cont): (seq<byte>, Option<Cont>) {
    if IsFirst(c) then
      var (bytes, next) := Fill(services, 0, c, c.offset, Minus16(limit, 3), true);
      (Des(TotalSize(services)) + bytes, next)
    else Fill(services, 0, c, c.offset, limit, true)
  }

  // ----------------------------------------------------------- pages in a row

  /** What is still to come at a continuation. */
  function Rest(services: seq<Record>, c: Cont): seq<byte>
    requires Reachable(services, c)
  {
    var from := services[c.index..];
    if c.offset == 0 then Lists(from)
    else Filtered(services[c.index].attributes)[c.offset..] + Lists(services[c.index + 1..])
  }

  /** A continuation that a page can end with. */
  predicate Reachable(services: seq<Record>, c: Cont) {
    && c.index as nat <= |services|
    && (c.offset > 0 ==> c.index as nat < |services| && services[c.index].matching && c.offset < Size(services[c.index]))
  }

  function RestOf(services: seq<Record>, next: Option<Cont>): seq<byte>
    requires next.Some? ==> Reachable(services, next.value)
  {
    match next
    case None => []
    case Some(c) => Rest(services, c)
  }

  predicate Later(c: Cont, next: Option<Cont>) {
    next.Some? ==> next.value.index > c.index || (next.value.index == c.index && next.value.offset > c.offset)
  }

  lemma ListsFrom(services: seq<Record>, i: nat)
    requires i < |services|
    ensures Lists(services[i..])
         == (if services[i].matching then Des(Size(services[i])) + Filtered(services[i].attributes) else [])
            + Lists(services[i + 1..])
  {
    assert services[i..][1..] == services[i + 1..];
  }

  lemma RecordFits(services: Services, i: nat, first: Cont, max: half)
    requires first.index as nat <= i < |services| && services[i].matching && Size(services[i]) + 3 <= max
    ensures var r := services[i];
            var (more, next) := Fill(services, i + 1, first, 0, max - 3 - Size(r), false);
            Fill(services, i, first, 0, max, false) == (Des(Size(r)) + Filtered(r.attributes) + more, next)
  {
    var all := Filtered(services[i].attributes);
    FilterIsSlice(services[i].attributes, 0, max - 3);
    hide Filtered, Filter, Des, Low16;
    assert all[0..|all|] == all;
    Low16Small(|all|);
  }

  /** After the first record everything that is stored is stored whole. */
  lemma {:induction false} FillMore(services: Services, i: nat, first: Cont, max: half)
    requires first.index as nat <= i <= |services|
    ensures var (bytes, next) := Fill(services, i, first, 0, max, false);
            && |bytes| <= max as nat
            && (next.Some? ==> Reachable(services, next.value) && i <= next.value.index as nat < |services|)
            && bytes + RestOf(services, next) == Lists(services[i..])
    decreases |services| - i
  {
    hide Filtered, Filter, Des, Low16;
    if i == |services| {
      assert services[i..] == [];
    } else {
      ListsFrom(services, i);
      var r := services[i];
      if !r.matching {
        FillMore(services, i + 1, first, max);
        assert [] + Lists(services[i + 1..]) == Lists(services[i + 1..]);
      } else if Size(r) + 3 > max {
        assert [] + Lists(services[i..]) == Lists(services[i..]);
      } else {
        RecordFits(services, i, first, max);
        FillMore(services, i + 1, first, max - 3 - Size(r));
        var (more, next) := Fill(services, i + 1, first, 0, max - 3 - Size(r), false);
        hide Fill, Lists, Rest;
        ConcatAssoc(Des(Size(r)) + Filtered(r.attributes), more, RestOf(services, next));
      }
    }
  }

  lemma Slices(head: seq<byte>, all: seq<byte>, offset: nat, n: nat, later: seq<byte>)
    requires offset + n <= |all|
    ensures head + all[offset..offset + n] + (all[offset + n..] + later) == head + (all[offset..] + later)
  {
  }

  /** The header that a page puts before the record at its continuation. */
  function Head(services: seq<Record>, c: Cont): seq<byte>
    requires c.index as nat < |services|
  {
    if c.offset == 0 then Des(Size(services[c.index])) else []
  }

  lemma RestIs(services: Services, c: Cont)
    requires Reachable(services, c) && c.index as nat < |services| && services[c.index].matching
    ensures var all, later := Filtered(services[c.index].attributes), Lists(services[c.index + 1..]);
            Rest(services, c) == Head(services, c) + (all[c.offset..] + later)
  {
    hide Filtered, Des, Lists;
    var all, later := Filtered(services[c.index].attributes), Lists(services[c.index + 1..]);
    ListsFrom(services, c.index);
    if c.offset == 0 {
      assert all[0..] == all;
      ConcatAssoc(Des(Size(services[c.index])), all, later);
    } else {
      assert [] + (all[c.offset..] + later) == all[c.offset..] + later;
    }
  }

  /** A record of which everything that is left fits, and the records behind it. */
  lemma WholeRecord(services: Services, c: Cont, room: half)
    requires Reachable(services, c) && c.index as nat < |services| && services[c.index].matching
    requires room >= Size(services[c.index]) - c.offset
    ensures var all := Filtered(services[c.index].attributes);
            var (more, next) := Fill(services, c.index as nat + 1, c, 0, room - (|all| - c.offset), false);
            && |more| <= room - (|all| - c.offset)
            && (next.Some? ==> Reachable(services, next.value) && c.index < next.value.index)
            && Head(services, c) + all[c.offset..] + more + RestOf(services, next) == Rest(services, c)
  {
    hide Filtered, Des, Lists, Fill, Rest, Head;
    var all, head := Filtered(services[c.index].attributes), Head(services, c);
    var left: half := room - (|all| - c.offset);
    FillMore(services, c.index as nat + 1, c, left);
    var (more, next) := Fill(services, c.index as nat + 1, c, 0, left, false);
    RestIs(services, c);
    ConcatAssoc(head + all[c.offset..], more, RestOf(services, next));
    ConcatAssoc(head, all[c.offset..], more + RestOf(services, next));
  }

  /** A record of which n more bytes fit, and not all. */
  lemma CutRecord(services: Services, c: Cont, n: nat)
    requires Reachable(services, c) && c.index as nat < |services| && services[c.index].matching
    requires 0 < n && c.offset + n < Size(services[c.index])
    ensures var all := Filtered(services[c.index].attributes);
            var next := Cont(c.index, c.offset + n);
            && Reachable(services, next)
            && Head(services, c) + all[c.offset..c.offset + n] + Rest(services, next) == Rest(services, c)
  {
    hide Filtered, Des, Lists, Rest;
    var all, later := Filtered(services[c.index].attributes), Lists(services[c.index + 1..]);
    var next := Cont(c.index, c.offset + n);
    RestIs(services, c);
    RestIs(services, next);
    Slices(Head(services, c), all, c.offset, n, later);
    assert [] + (all[c.offset + n..] + later) == all[c.offset + n..] + later;
  }

  /** The first record of a page, whose attributes may be cut. */
  lemma FillRecord(services: Services, c: Cont, max: half)
    requires Reachable(services, c) && c.index as nat < |services| && services[c.index].matching
    requires max >= 4 || (max == 3 && Size(services[c.index]) == 0)
    ensures var (bytes, next) := Fill(services, c.index as nat, c, c.offset, max, true);
            && |bytes| <= max as nat && bytes != []
            && (next.Some? ==> Reachable(services, next.value)) && Later(c, next)
            && bytes + RestOf(services, next) == Rest(services, c)
  {
    hide Filtered, Filter, Des, Low16, Lists, Rest;
    var i, all := c.index as nat, Filtered(services[c.index].attributes);
    var room: half := max - |Head(services, c)|;
    FilterIsSlice(services[i].attributes, c.offset, room);
    if room >= |all| - c.offset {
      Low16Small(|all| - c.offset);
      WholeRecord(services, c, room);
      assert all[c.offset..|all|] == all[c.offset..];
    } else {
      Low16Small(c.offset + room);
      CutRecord(services, c, room);
    }
  }

  /** Records that do not match, or that earlier pages have dealt with, are passed over. */
  lemma {:induction false} FillSkips(services: Services, i: nat, first: Cont, offset: half, max: half, stop: nat)
    requires i <= stop <= |services|
    requires forall k :: i <= k < stop ==> k < first.index as nat || !services[k].matching
    ensures Fill(services, i, first, offset, max, true) == Fill(services, stop, first, offset, max, true)
    decreases stop - i
  {
    if i < stop { FillSkips(services, i + 1, first, offset, max, stop); }
  }

  lemma {:induction false} ListsSkip(services: seq<Record>, i: nat, stop: nat)
    requires i <= stop <= |services| && forall k :: i <= k < stop ==> !services[k].matching
    ensures Lists(services[i..]) == Lists(services[stop..])
    decreases stop - i
  {
    if i < stop {
      ListsFrom(services, i);
      ListsSkip(services, i + 1, stop);
      assert [] + Lists(services[i + 1..]) == Lists(services[i + 1..]);
    }
  }

  /** The next record that matches, or the end of the list. */
  function NextMatch(services: seq<Record>, i: nat): (stop: nat)
    requires i <= |services|
    ensures i <= stop <= |services| && (stop < |services| ==> services[stop].matching)
    ensures forall k :: i <= k < stop ==> !services[k].matching
    decreases |services| - i
  {
    if i == |services| || services[i].matching then i else NextMatch(services, i + 1)
  }

  /**
   The bytes that the first page needs: the header of the answer and, if a record matches,
   the header of the first one that does and something of its attributes.
   */
  function Needed(services: seq<Record>): half {
    var stop := NextMatch(services, 0);
    if stop == |services| then 3 else if Size(services[stop]) == 0 then 6 else 7
  }

  /** The bytes that a page needs at a continuation. */
  function Least(services: seq<Record>, c: Cont): (l: half)
    ensures l >= 3
  {
    if IsFirst(c) then Needed(services) else 4
  }

  /**
   The loop, from any continuation: what it stores fits, and together with what is
   still to come afterwards it is what was to come before.
   */
  lemma FillPage(services: Services, c: Cont, max: half)
    requires Reachable(services, c)
    requires max >= 4 || (c == Cont(0, 0) && max as nat + 3 >= Needed(services))
    ensures var (bytes, next) := Fill(services, 0, c, c.offset, max, true);
            && |bytes| <= max as nat && (bytes == [] ==> next == None)
            && (next.Some? ==> Reachable(services, next.value)) && Later(c, next)
            && bytes + RestOf(services, next) == Rest(services, c)
  {
    var stop := NextMatch(services, c.index);
    FillSkips(services, 0, c, c.offset, max, stop);
    if c.offset == 0 {
      ListsSkip(services, c.index, stop);
      FillMoved(services, c, stop, max);
      if stop == |services| {
        assert services[stop..] == [];
      } else {
        FillRecord(services, Cont(stop, 0), max);
      }
    } else {
      FillRecord(services, c, max);
    }
  }

  /** Beyond its own index a continuation does not matter to the loop. */
  lemma {:induction false} FillMoved(services: Services, c: Cont, i: nat, max: half)
    requires c.offset == 0 && c.index as nat <= i <= |services|
    ensures i <= 0xFFFF ==> Fill(services, i, c, 0, max, true) == Fill(services, i, Cont(i, 0), 0, max, true)
  {
    FillSame(services, i, c, if i <= 0xFFFF then Cont(i, 0) else c, 0, max, true);
  }

  lemma {:induction false} FillSame(services: Services, i: nat, c: Cont, d: Cont, offset: half, max: half, first: bool)
    requires c.index as nat <= i <= |services| && d.index as nat <= i
    ensures Fill(services, i, c, offset, max, first) == Fill(services, i, d, offset, max, first)
    decreases |services| - i
  {
    hide Filter, Low16, Des;
    if i < |services| {
      FillSame(services, i + 1, c, d, offset, max, first);
      var room := Minus16(max, if offset == 0 then 3 else 0);
      var (bytes, complete) := Filter(services[i].attributes, offset, room);
      FillSame(services, i + 1, c, d, 0, Minus16(room, Low16(|bytes|)), false);
    }
  }
  lemma AddLow16(a: nat, b: nat)
    ensures Low16(a + Low16(b)) == Low16(a + b)
  {
    assert b == 0x1_0000 * (b / 0x1_0000) + Low16(b);
    LowSame(a + Low16(b), a + b, b / 0x1_0000);
  }

  lemma {:induction false} LowSame(x: nat, y: nat, k: nat)
    requires y == x + 0x1_0000 * k
    ensures Low16(x) == Low16(y)
  {
    if k > 0 {
      LowSame(x, y - 0x1_0000, k - 1);
      assert (y - 0x1_0000) % 0x1_0000 == y % 0x1_0000;
    }
  }

  lemma {:induction false} TotalIsLength(services: seq<Record>)
    ensures TotalSize(services) == Low16(|Lists(services)|)
  {
    if services != [] {
      TotalIsLength(services[1..]);
      AddLow16(if services[0].matching then 3 + Size(services[0]) else 0, |Lists(services[1..])|);
      hide Low16, Filtered, Des;
    }
  }

  /** The whole answer, as it would go out in one piece. */
  function OneShot(services: seq<Record>): seq<byte> {
    Des(Low16(|Lists(services)|)) + Lists(services)
  }

  /** What is to come, with the header that only the first page has. */
  function Pending(services: seq<Record>, c: Cont): seq<byte>
    requires Reachable(services, c)
  {
    (if IsFirst(c) then Des(Low16(|Lists(services)|)) else []) + Rest(services, c)
  }

  /** One page fits the limit, loses and repeats nothing, and brings the client forward. */
  lemma PageIsPart(services: Services, limit: half, c: Cont)
    requires Reachable(services, c) && limit >= Least(services, c)
    ensures var (body, next) := Page(services, limit, c);
            && |body| <= limit as nat && (next.Some? ==> body != [])
            && (next.Some? ==> Reachable(services, next.value) && !IsFirst(next.value)) && Later(c, next)
            && body + RestOf(services, next) == Pending(services, c)
  {
    hide Fill, Lists, Low16, Des, Rest, Filtered;
    if IsFirst(c) {
      TotalIsLength(services);
      FillPage(services, c, limit - 3);
      var (bytes, next) := Fill(services, 0, c, c.offset, limit - 3, true);
      ConcatAssoc(Des(TotalSize(services)), bytes, RestOf(services, next));
    } else {
      FillPage(services, c, limit);
      assert [] + Rest(services, c) == Rest(services, c);
    }
  }

  /** A client that asks for page after page, with a limit of its own each time. */
  function Follow(services: Services, c: Cont, limits: seq<half>): (seq<seq<byte>>, Option<Cont>)
    decreases |limits|
  {
    if limits == [] then ([], Some(c))
    else
      var (body, next) := Page(services, limits[0], c);
      if next == None then ([body], None)
      else
        var (more, end) := Follow(services, next.value, limits[1..]);
        ([body] + more, end)
  }

  function Join(pages: seq<seq<byte>>): seq<byte> {
    if pages == [] then [] else pages[0] + Join(pages[1..])
  }

  /** Seven bytes are enough for every page. */
  predicate Enough(limits: seq<half>) {
    forall i :: 0 <= i < |limits| ==> limits[i] >= 7
  }

  /** What is really needed: `Needed` bytes for the first page, four for any other. */
  predicate Suffices(services: seq<Record>, c: Cont, limits: seq<half>) {
    forall i :: 0 <= i < |limits| ==> limits[i] >= if i == 0 && IsFirst(c) then Needed(services) else 4
  }

  predicate Within(pages: seq<seq<byte>>, limits: seq<half>) {
    |pages| <= |limits| && forall i :: 0 <= i < |pages| ==> |pages[i]| <= limits[i] as nat
  }

  lemma {:induction false} FollowFrom(services: Services, c: Cont, limits: seq<half>)
    requires Reachable(services, c) && Suffices(services, c, limits)
    ensures var (pages, end) := Follow(services, c, limits);
            && Within(pages, limits)
            && (end.Some? ==> Reachable(services, end.value) && (limits != [] ==> !IsFirst(end.value)))
            && (limits != [] ==> Join(pages) + RestOf(services, end) == Pending(services, c))
            && (|limits| > |Pending(services, c)| ==> end == None)
    decreases |limits|
  {
    if limits != [] {
      PageIsPart(services, limits[0], c);
      var (body, next) := Page(services, limits[0], c);
      hide Page, Rest, Lists, Des, Low16, Later;
      if next == None {
        assert Join([body]) == body + Join([]) == body;
      } else {
        FollowFrom(services, next.value, limits[1..]);
        var (more, end) := Follow(services, next.value, limits[1..]);
        assert ([body] + more)[1..] == more;
        PendingLater(services, next.value);
        if limits[1..] == [] {
          assert Join(more) == [] && body + [] == body;
        }
        ConcatAssoc(body, Join(more), RestOf(services, end));
      }
    }
  }

  lemma PendingLater(services: Services, c: Cont)
    requires Reachable(services, c) && !IsFirst(c)
    ensures Pending(services, c) == Rest(services, c)
  {
  }

  /**
   The pages that a client gets by following the continuation states, each within
   its limit, put together are the one-shot answer; the client is done after at
   most as many pages as the answer has bytes, and one more. The limits may differ;
   seven bytes are always enough.
   */
  lemma PagesMakeTheAnswer(services: Services, limits: seq<half>)
    requires limits != [] && (Enough(limits) || Suffices(services, Cont(0, 0), limits))
    ensures var (pages, end) := Follow(services, Cont(0, 0), limits);
            && Within(pages, limits)
            && Join(pages) <= OneShot(services)
            && (end == None ==> Join(pages) == OneShot(services))
            && (|limits| > |OneShot(services)| ==> end == None)
  {
    FollowFrom(services, Cont(0, 0), limits);
    var (pages, end) := Follow(services, Cont(0, 0), limits);
    hide Follow, Lists, Des, Low16;
    assert services[0..] == services;
    assert Join(pages) + [] == Join(pages);
  }

  /** The announced length is right exactly when it fits its two bytes. */
  lemma AnnouncedLength(services: Services)
    ensures OneShot(services)[..3] == Des(TotalSize(services))
    ensures TotalSize(services) as nat == |OneShot(services)| - 3 <==> |Lists(services)| <= 0xFFFF
  {
    TotalIsLength(services);
  }

  // ------------------------------------------------------ how small a limit may be

  function Repeated(limit: half, n: nat): (l: seq<half>)
    ensures |l| == n && forall i :: 0 <= i < n ==> l[i] == limit
  {
    seq(n, _ => limit)
  }

  /** A client with this limit gets the whole answer by following the continuation states, in pages within it. */
  ghost predicate Served(services: Services, limit: half) {
    exists n :: n > 0 && ServedIn(services, limit, n)
  }

  predicate ServedIn(services: Services, limit: half, n: nat) {
    var (pages, end) := Follow(services, Cont(0, 0), Repeated(limit, n));
    end == None && Within(pages, Repeated(limit, n)) && Join(pages) == OneShot(services)
  }

  /** With less than the headers need, the first page is too long. */
  lemma SmallPage(services: Services, limit: half)
    requires limit < if NextMatch(services, 0) == |services| then 3 else 6
    ensures |Page(services, limit, Cont(0, 0)).0| > limit as nat
  {
    var c, stop := Cont(0, 0), NextMatch(services, 0);
    FillSkips(services, 0, c, 0, Minus16(limit, 3), stop);
    hide Filter, Low16;
  }

  /** With six bytes, nothing of the first record's attributes fits behind its header. */
  lemma HeadersOnly(services: Services)
    requires Needed(services) == 7
    ensures var stop := NextMatch(services, 0);
            Page(services, 6, Cont(0, 0))
            == (Des(TotalSize(services)) + Des(Size(services[stop])), Some(Cont(stop, 0)))
  {
    var c, stop := Cont(0, 0), NextMatch(services, 0);
    FillSkips(services, 0, c, 0, 3, stop);
    FilterIsSlice(services[stop].attributes, 0, 0);
    hide Filter, Filtered, Des;
    assert Low16(0) == 0;
    assert Des(Size(services[stop])) + [] == Des(Size(services[stop]));
  }

  /** If that record is the first of the list, the client is sent back to the beginning for ever. */
  lemma {:induction false} NeverDone(services: Services, n: nat)
    requires Page(services, 6, Cont(0, 0)).1 == Some(Cont(0, 0))
    ensures Follow(services, Cont(0, 0), Repeated(6, n)).1 != None
    decreases n
  {
    if n > 0 {
      NeverDone(services, n - 1);
      assert Repeated(6, n)[1..] == Repeated(6, n - 1);
    }
  }

  /** If it is not, its header comes twice. */
  lemma HeaderTwice(services: Services, n: nat)
    requires Needed(services) == 7 && NextMatch(services, 0) > 0 && n > 0
    ensures var (pages, end) := Follow(services, Cont(0, 0), Repeated(6, n));
            end == None ==> |Join(pages)| == |OneShot(services)| + 3
  {
    HeadersOnly(services);
    var stop := NextMatch(services, 0);
    var c := Cont(stop, 0);
    assert Repeated(6, n)[1..] == Repeated(6, n - 1);
    FollowFrom(services, c, Repeated(6, n - 1));
    ListsSkip(services, 0, stop);
    assert services[0..] == services;
    PendingLater(services, c);
    hide Page, Lists, Des, Low16, Filtered, Needed;
    var (more, end) := Follow(services, c, Repeated(6, n - 1));
    var body := Page(services, 6, Cont(0, 0)).0;
    assert ([body] + more)[1..] == more;
    if n == 1 { assert end == Some(c); }
  }

  /**
   A client is served exactly when its limit holds what the first page needs: three
   bytes if no record matches, six if nothing is asked of the first one that does, and
   seven otherwise.
   */
  lemma LimitNeeded(services: Services, limit: half)
    ensures Served(services, limit) <==> limit >= Needed(services)
  {
    if limit >= Needed(services) {
      EnoughServes(services, limit);
    } else {
      forall n | n > 0 ensures !ServedIn(services, limit, n) {
        NotServed(services, limit, n);
      }
    }
  }

  lemma EnoughServes(services: Services, limit: half)
    requires limit >= Needed(services)
    ensures Served(services, limit)
  {
    var n := |OneShot(services)| + 1;
    if limit >= 4 {
      PagesMakeTheAnswer(services, Repeated(limit, n));
    } else {
      n := 1;
      PagesMakeTheAnswer(services, Repeated(limit, 1));
      NothingMatches(services);
    }
    hide Follow, Join, Within, OneShot, Needed;
    assert ServedIn(services, limit, n);
  }

  lemma NothingMatches(services: Services)
    requires NextMatch(services, 0) == |services|
    ensures Page(services, 3, Cont(0, 0)).1 == None
  {
    FillSkips(services, 0, Cont(0, 0), 0, 0, |services|);
  }

  lemma NotServed(services: Services, limit: half, n: nat)
    requires limit < Needed(services) && n > 0
    ensures !ServedIn(services, limit, n)
  {
    var (pages, end) := Follow(services, Cont(0, 0), Repeated(limit, n));
    if limit == 6 {
      HeadersOnly(services);
      if NextMatch(services, 0) == 0 { NeverDone(services, n); } else { HeaderTwice(services, n); }
    } else {
      SmallPage(services, limit);
      hide Page;
      assert pages[0] == Page(services, limit, Cont(0, 0)).0;
    }
  }

  /** So it is seven bytes when the first record that matches has an attribute that is asked for. */
  lemma SevenBytesNeeded(services: Services, limit: half)
    requires var stop := NextMatch(services, 0);
             stop < |services| && exists i :: 0 <= i < |services[stop].attributes| && services[stop].attributes[i].wanted
    ensures Served(services, limit) <==> limit >= 7
  {
    var r := services[NextMatch(services, 0)];
    var i :| 0 <= i < |r.attributes| && r.attributes[i].wanted;
    WantedIsSomething(r.attributes, i);
    LimitNeeded(services, limit);
  }

  lemma {:induction false} WantedIsSomething(attributes: seq<Attribute>, i: nat)
    requires i < |attributes| && attributes[i].wanted
    ensures Filtered(attributes) != []
    decreases i
  {
    if i > 0 { WantedIsSomething(attributes[1..], i - 1); }
  }
}
