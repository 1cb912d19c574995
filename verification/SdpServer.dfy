/**
 The response buffer of libbtstack sdp.c and the code that fills it, proved against
 the pages of modules Sdp and SdpSearch.
 */
module SdpServer {
  import opened Bytes
  import opened Sdp
  import SdpSearch

  /** HCI_ACL_PAYLOAD_SIZE */
  const RESPONSE_BUFFER_SIZE := 252

  const SERVICE_SEARCH_RESPONSE: byte := 3
  const SERVICE_SEARCH_ATTRIBUTE_RESPONSE: byte := 7

  // ------------------------------------------------------ continuation states

  /** A continuation state as the server stores it at the end of a page. */
  function ContBytes(next: Option<Cont>): seq<byte> {
    match next
    case None => [0]
    case Some(c) => [4] + Net16(c.index) + Net16(c.offset)
  }

  predicate ContState(state: seq<byte>) {
    state != [] && (state[0] == 4 ==> |state| >= 5)
  }

  /** A continuation state as the server reads it from a request. */
  function ReadCont(state: seq<byte>): Cont
    requires ContState(state)
  {
    if state[0] == 4 then Cont(Be16(state[1], state[2]), Be16(state[3], state[4])) else Cont(0, 0)
  }

  lemma Net16Back(n: half)
    ensures Be16(Net16(n)[0], Net16(n)[1]) == n
  {
  }

  /** What the client sends back is understood as it was meant. */
  lemma ContRoundTrip(next: Option<Cont>)
    ensures ContState(ContBytes(next))
    ensures ReadCont(ContBytes(next)) == if next.Some? then next.value else Cont(0, 0)
  {
    if next.Some? {
      Net16Back(next.value.index);
      Net16Back(next.value.offset);
    }
  }

  /** A ServiceSearchAttribute response. */
  function AttributeResponse(id: half, page: (seq<byte>, Option<Cont>)): seq<byte>
    requires |page.0| < 0xFFF0
  {
    var end := ContBytes(page.1);
    [SERVICE_SEARCH_ATTRIBUTE_RESPONSE] + Net16(id) + Net16(2 + |page.0| + |end|) + Net16(|page.0|) + page.0 + end
  }

  // --------------------------------------------------------- service searches

  function IndexBytes(next: Option<half>): seq<byte> {
    match next
    case None => [0]
    case Some(i) => [2] + Net16(i)
  }

  predicate IndexState(state: seq<byte>) {
    state != [] && (state[0] == 2 ==> |state| >= 3)
  }

  function ReadIndex(state: seq<byte>): half
    requires IndexState(state)
  {
    if state[0] == 2 then Be16(state[1], state[2]) else 0
  }

  lemma IndexRoundTrip(next: Option<half>)
    ensures IndexState(IndexBytes(next))
    ensures ReadIndex(IndexBytes(next)) == if next.Some? then next.value else 0
  {
    if next.Some? { Net16Back(next.value); }
  }

  function Net32(n: word): (b: seq<byte>)
    ensures |b| == 4
  {
    Net16(n / 0x1_0000) + Net16(n % 0x1_0000)
  }

  function HandleBytes(handles: seq<word>): (b: seq<byte>)
    ensures |b| == 4 * |handles|
  {
    if handles == [] then [] else Net32(handles[0]) + HandleBytes(handles[1..])
  }

  function SearchHeader(id: half, total: half, count: nat, end: nat): (h: seq<byte>)
    requires count < 0x3FF0 && end <= 3
    ensures |h| == 9
  {
    [SERVICE_SEARCH_RESPONSE] + Net16(id) + Net16(4 + 4 * count + end) + Net16(total) + Net16(count)
  }

  /** A ServiceSearch response. */
  function SearchResponse(id: half, total: half, page: (seq<word>, Option<half>)): seq<byte>
    requires |page.0| < 0x3FF0
  {
    var end, handles := IndexBytes(page.1), HandleBytes(page.0);
    SearchHeader(id, total, |page.0|, |end|) + handles + end
  }

  // ---------------------------------------------------------------- the server

  lemma ListsSnoc(services: seq<Record>, i: nat)
    requires i < |services|
    ensures |Lists(services[..i + 1])| == |Lists(services[..i])| + if services[i].matching then 3 + Size(services[i]) else 0
  {
    ListsAppend(services[..i], services[i]);
    assert services[..i + 1] == services[..i] + [services[i]];
  }

  lemma {:induction false} ListsAppend(services: seq<Record>, r: Record)
    ensures |Lists(services + [r])| == |Lists(services)| + if r.matching then 3 + Size(r) else 0
  {
    if services == [] {
      assert [] + [r] == [r] && [r][1..] == [];
    } else {
      assert (services + [r])[1..] == services[1..] + [r];
      ListsAppend(services[1..], r);
      hide Filtered, Des;
    }
  }

  /** Copying only ever adds to what has been stored. */
  lemma {:induction false} FilterGrows(c: Context, attributes: seq<Attribute>)
    ensures c.copied <= FilterAll(c, attributes).copied
    decreases |attributes|
  {
    if attributes != [] && c.complete { FilterGrows(FilterOne(c, attributes[0]), attributes[1..]); }
  }

  lemma {:induction false} HandleBytesSnoc(handles: seq<word>, h: word)
    ensures HandleBytes(handles + [h]) == HandleBytes(handles) + Net32(h)
  {
    if handles == [] {
      assert [] + [h] == [h] && [h][1..] == [];
    } else {
      assert (handles + [h])[1..] == handles[1..] + [h];
      HandleBytesSnoc(handles[1..], h);
      ConcatAssoc(Net32(handles[0]), HandleBytes(handles[1..]), Net32(h));
    }
  }

  class Server {
    const buffer: array<byte>

    constructor ()
      ensures fresh(buffer) && buffer.Length == RESPONSE_BUFFER_SIZE
    {
      buffer := new byte[RESPONSE_BUFFER_SIZE](_ => 0);
    }

    method Store(pos: nat, bytes: seq<byte>)
      requires pos + |bytes| <= buffer.Length
      modifies buffer
      ensures buffer[..] == old(buffer[..])[..pos] + bytes + old(buffer[..])[pos + |bytes|..]
    {
      forall i | 0 <= i < |bytes| { buffer[pos + i] := bytes[i]; }
    }

    /** sdp_get_size_for_service_search_attribute_response */
    method TotalResponseSize(services: seq<Record>) returns (size: half)
      ensures size == TotalSize(services)
    {
      size := 0;
      var i := 0;
      while i < |services|
        invariant 0 <= i <= |services| && size == Low16(|Lists(services[..i])|)
      {
        ListsSnoc(services, i);
        if services[i].matching {
          AddLow16(3 + Size(services[i]), |Lists(services[..i])|);
          size := Low16(size + 3 + Size(services[i]));
        }
        i := i + 1;
      }
      assert services[..i] == services;
      TotalIsLength(services);
    }

    /** spd_append_range */
    method AppendRangeAt(pos: nat, ghost start: nat, c: Context, data: seq<byte>) returns (d: Context)
      requires start <= pos <= buffer.Length && c.startOffset <= |data|
      requires buffer[start..pos] == c.copied && start + |AppendRange(c, data).copied| <= buffer.Length
      modifies buffer
      ensures d == AppendRange(c, data) && buffer[start..start + |d.copied|] == d.copied
      ensures buffer[..start] == old(buffer[..start])
    {
      d := AppendRange(c, data);
      var n := |d.copied| - |c.copied|;
      Store(pos, data[c.startOffset..c.startOffset + n]);
    }

    /** sdp_filter_attributes_in_attributeIDList */
    method FilterAttributes(attributes: seq<Attribute>, offset: nat, max: nat, pos: nat) returns (used: nat, complete: bool)
      requires pos + |Filter(attributes, offset, max).0| <= buffer.Length
      modifies buffer
      ensures buffer[..pos] == old(buffer[..pos]) && pos + used <= buffer.Length
      ensures (buffer[pos..pos + used], complete) == Filter(attributes, offset, max)
    {
      var c, i := Context(offset, max, [], true), 0;
      ghost var goal := FilterAll(c, attributes);
      assert attributes[0..] == attributes;
      while i < |attributes| && c.complete
        invariant 0 <= i <= |attributes| && FilterAll(c, attributes[i..]) == goal
        invariant pos + |c.copied| <= buffer.Length && buffer[pos..pos + |c.copied|] == c.copied
        invariant buffer[..pos] == old(buffer[..pos])
      {
        var a := attributes[i];
        assert attributes[i..][1..] == attributes[i + 1..];
        FilterGrows(FilterOne(c, a), attributes[i + 1..]);
        if a.wanted { c := FilterAttribute(c, a, pos); }
        i := i + 1;
      }
      used, complete := |c.copied|, c.complete;
    }

    method FilterAttribute(c: Context, a: Attribute, start: nat) returns (d: Context)
      requires a.wanted && c.complete && start + |c.copied| <= buffer.Length
      requires buffer[start..start + |c.copied|] == c.copied
      requires start + |FilterOne(c, a).copied| <= buffer.Length
      modifies buffer
      ensures d == FilterOne(c, a) && buffer[start..start + |d.copied|] == d.copied
      ensures buffer[..start] == old(buffer[..start])
    {
      if c.startOffset >= 3 {
        d := c.(startOffset := c.startOffset - 3);
      } else {
        d := AppendRangeAt(start + |c.copied|, start, c, [0x09] + Net16(a.id));
        if !d.complete { return; }
      }
      if d.startOffset >= |a.value| {
        d := d.(startOffset := d.startOffset - |a.value|);
        return;
      }
      d := AppendRangeAt(start + |d.copied|, start, d, a.value);
    }

    /** One turn of the loop, for a record that matches and has a place on the page. */
    method AnswerRecord(services: Services, i: nat, c: Cont, offset: half, max: half, firstAnswer: bool, pos: nat,
        ghost page: (seq<byte>, Option<Cont>))
      returns (first: bool, end: nat, left: half, later: half, next: Option<Cont>)
      requires i < |services| && c.index as nat <= i && services[i].matching && 7 <= pos <= buffer.Length
      requires !(offset == 0 && Size(services[i]) + 3 > max && !firstAnswer)
      requires var (bytes, next) := Fill(services, i, c, offset, max, firstAnswer);
               (buffer[7..pos] + bytes, next) == page && 7 + |page.0| <= buffer.Length
      modifies buffer
      ensures !first && 7 <= end <= buffer.Length
      ensures next == None ==> var (bytes, next) := Fill(services, i + 1, c, later, left, first);
                               (buffer[7..end] + bytes, next) == page
      ensures next.Some? ==> (buffer[7..end], next) == page
    {
      hide Filter, Filtered, Des, Low16;
      ghost var before := buffer[7..pos];
      ghost var fill := Fill(services, i, c, offset, max, firstAnswer);
      var used, complete := StoreRecord(services, i, c, offset, max, firstAnswer, pos, page.0);
      left := Minus16(Minus16(max, if offset == 0 then 3 else 0), Low16(used));
      end := pos + (if offset == 0 then 3 else 0) + used;
      first := false;
      if complete {
        ghost var here := buffer[7..end][|before|..];
        assert fill.0 == here + Fill(services, i + 1, c, 0, left, false).0;
        ConcatAssoc(before, here, Fill(services, i + 1, c, 0, left, false).0);
        later, next := 0, None;
      } else {
        later := Low16(offset + used);
        next := Some(Cont(i, later));
      }
    }

    /** The header of the element around everything, on the first page. */
    method OpenPage(services: Services, c: Cont, limit: half) returns (pos: nat, max: half)
      requires 3 <= limit && 7 + limit as nat <= buffer.Length
      modifies buffer
      ensures 7 <= pos <= buffer.Length && buffer[7..pos] == if IsFirst(c) then Des(TotalSize(services)) else []
      ensures max == if IsFirst(c) then limit - 3 else limit
    {
      pos, max := 7, limit;
      if c.index == 0 && c.offset == 0 {
        var total := TotalResponseSize(services);
        Store(pos, Des(total));
        pos, max := 10, max - 3;
      }
    }

    /**
     The body of a ServiceSearchAttribute page, from position 7 on: the element
     around everything on the first page, then the loop over the records.
     */
    method AttributeBody(services: Services, c: Cont, limit: half) returns (pos: nat, next: Option<Cont>)
      requires Reachable(services, c) && limit >= Least(services, c) && 7 + limit as nat <= buffer.Length
      modifies buffer
      ensures 7 <= pos <= 7 + limit as nat && (buffer[7..pos], next) == Page(services, limit, c)
    {
      hide Filter, Filtered, Des, Low16, Lists, Rest, Pending, Later, Needed;
      PageIsPart(services, limit, c);
      ghost var page := Page(services, limit, c);
      next := None;
      var max, offset, firstAnswer := limit, c.offset, true;
      pos, max := OpenPage(services, c, limit);
      ghost var first := Fill(services, 0, c, offset, max, firstAnswer).0;
      assert buffer[7..pos] == if IsFirst(c) then Des(TotalSize(services)) else [];
      assert [] + first == first;
      var i := 0;
      while i < |services| && next == None
        decreases |services| - i, if next == None then 1 else 0
        invariant 0 <= i <= |services| && 7 <= pos <= buffer.Length
        invariant next == None ==> var (bytes, end) := Fill(services, i, c, offset, max, firstAnswer);
                                   (buffer[7..pos] + bytes, end) == page
        invariant next.Some? ==> (buffer[7..pos], next) == page
      {
        var r := services[i];
        if i < c.index as nat || !r.matching {
          i := i + 1;
        } else if offset == 0 && Size(r) + 3 > max && !firstAnswer {
          assert buffer[7..pos] + [] == buffer[7..pos];
          next := Some(Cont(i, 0));
        } else {
          firstAnswer, pos, max, offset, next := AnswerRecord(services, i, c, offset, max, firstAnswer, pos, page);
          if next == None { i := i + 1; }
        }
      }
      assert buffer[7..pos] + [] == buffer[7..pos];
    }

    /** The header of a record, unless an earlier page had it, and as much of its attributes as fits. */
    method StoreRecord(services: Services, i: nat, c: Cont, offset: half, max: half, firstAnswer: bool, pos: nat,
        ghost body: seq<byte>) returns (used: nat, complete: bool)
      requires i < |services| && c.index as nat <= i && services[i].matching && 7 <= pos <= buffer.Length
      requires !(offset == 0 && Size(services[i]) + 3 > max && !firstAnswer)
      requires buffer[7..pos] + Fill(services, i, c, offset, max, firstAnswer).0 == body && 7 + |body| <= buffer.Length
      modifies buffer
      ensures var head := if offset == 0 then Des(Size(services[i])) else [];
              var stored := Filter(services[i].attributes, offset, Minus16(max, |head|));
              && |stored.0| == used && stored.1 == complete && pos + |head| + used <= buffer.Length
              && buffer[7..pos + |head| + used] == old(buffer[7..pos]) + (head + stored.0)
    {
      hide Filter, Filtered, Des, Low16;
      var at, room := pos, max;
      if offset == 0 {
        Store(at, Des(Size(services[i])));
        at, room := at + 3, Minus16(max, 3);
      }
      ghost var head := if offset == 0 then Des(Size(services[i])) else [];
      ghost var stored := buffer[7..at];
      assert stored == old(buffer[7..pos]) + head;
      used, complete := FilterAttributes(services[i].attributes, offset, room, at);
      assert buffer[7..at] == buffer[..at][7..] == stored;
      assert buffer[7..at + used] == buffer[7..at] + buffer[at..at + used];
    }

    /**
     sdp_handle_service_search_attribute_request, on the fields of the request. The
     response fits the connection, and it is the page at the request's continuation.
     */
    method HandleServiceSearchAttributeRequest(services: Services, id: half, maximum: half, state: seq<byte>, mtu: half)
      returns (pos: nat)
      requires ContState(state) && Reachable(services, ReadCont(state))
      requires buffer.Length == RESPONSE_BUFFER_SIZE && 12 <= mtu as nat <= RESPONSE_BUFFER_SIZE
      requires Min(mtu - 12, maximum) >= Least(services, ReadCont(state)) as nat
      modifies buffer
      ensures var page := Page(services, Min(mtu - 12, maximum), ReadCont(state));
              && |page.0| <= Min(mtu - 12, maximum)
              && 7 <= pos <= mtu as nat && buffer[..pos] == AttributeResponse(id, page)
    {
      hide Page, Filter, Filtered, Lists, Rest, Pending, Later, Net16;
      var limit := Minus16(mtu, 12);
      if maximum < limit { limit := maximum; }
      var c := ReadCont(state);
      PageIsPart(services, limit, c);
      var next;
      pos, next := AttributeBody(services, c, limit);
      var length, end := pos - 7, ContBytes(next);
      var header := [SERVICE_SEARCH_ATTRIBUTE_RESPONSE] + Net16(id) + Net16(2 + length + |end|) + Net16(length);
      Finish(pos, header, end);
      pos := pos + |end|;
    }

    /** Puts the continuation state behind the body and the header before it. */
    method Finish(pos: nat, header: seq<byte>, end: seq<byte>)
      requires |header| <= pos && pos + |end| <= buffer.Length
      modifies buffer
      ensures buffer[..pos + |end|] == header + old(buffer[|header|..pos]) + end
    {
      Store(pos, end);
      Store(0, header);
    }

    /**
     sdp_handle_service_search_request, on the fields of the request. The response
     fits the connection, and it is the page at the request's continuation.
     */
    method HandleServiceSearchRequest(services: Services, id: half, maximum: half, state: seq<byte>, mtu: half)
      returns (pos: nat)
      requires IndexState(state)
      requires buffer.Length == RESPONSE_BUFFER_SIZE && 16 <= mtu as nat <= RESPONSE_BUFFER_SIZE
      modifies buffer
      ensures var page := SdpSearch.SearchPage(services, maximum, (mtu - 12) / 4, ReadIndex(state));
              && |page.0| <= (mtu - 12) / 4
              && 9 <= pos <= mtu as nat
              && buffer[..pos] == SearchResponse(id, SdpSearch.Total(services, maximum), page)
    {
      hide HandleBytes, Net16, SdpSearch.Handles, SdpSearch.Scan;
      var room: nat := Minus16(mtu, 12) / 4;
      var from := ReadIndex(state);
      var total := CountMatches(services);
      if total > maximum { total := maximum; }
      SdpSearch.ScanFits(services, 0, from, total, room, 0, 0);
      var count, next;
      count, next := StoreHandles(services, from, total, room);
      pos := 9 + 4 * count;
      var end := IndexBytes(next);
      var header := SearchHeader(id, total, count, |end|);
      hide SearchHeader, IndexBytes, ReadIndex;
      Finish(pos, header, end);
      pos := pos + |end|;
    }

    method CountMatches(services: Services) returns (count: half)
      ensures count as nat == |SdpSearch.Handles(services)|
    {
      var n, i := 0, 0;
      while i < |services|
        invariant 0 <= i <= |services| && n == SdpSearch.Before(services, i) && n <= i
      {
        SdpSearch.HandlesFrom(services, i);
        if services[i].matching { n := n + 1; }
        i := i + 1;
      }
      count := n;
    }

    /** The loop that puts the handles of a page behind the header. */
    method StoreHandles(services: Services, from: half, total: nat, room: nat) returns (count: nat, next: Option<half>)
      requires var page := SdpSearch.Scan(services, 0, from, total, room, 0, 0);
               |page.0| <= room && 9 + 4 * room <= buffer.Length
      modifies buffer
      ensures var page := SdpSearch.Scan(services, 0, from, total, room, 0, 0);
              count == |page.0| && next == page.1 && buffer[9..9 + 4 * count] == HandleBytes(page.0)
    {
      hide Low16;
      ghost var page := SdpSearch.Scan(services, 0, from, total, room, 0, 0);
      ghost var stored: seq<word> := [];
      var matched, i, done := 0, 0, false;
      count, next := 0, None;
      assert [] + page.0 == page.0;
      while i < |services| && !done
        decreases |services| - i, if done then 0 else 1
        invariant 0 <= i <= |services| && count == |stored| && 9 + 4 * count <= buffer.Length
        invariant buffer[9..9 + 4 * count] == HandleBytes(stored)
        invariant !done ==> next == None
        invariant !done ==> var (more, end) := SdpSearch.Scan(services, i, from, total, room, matched, count);
                            (stored + more, end) == page
        invariant done ==> (stored, next) == page
      {
        if !services[i].matching {
          i := i + 1;
        } else if i < from as nat {
          i, matched := i + 1, matched + 1;
        } else {
          ghost var more := SdpSearch.Scan(services, i, from, total, room, matched, count).0;
          assert more == [services[i].handle] + more[1..];
          ConcatAssoc(stored, [services[i].handle], more[1..]);
          StoreHandle(9 + 4 * count, stored, services[i].handle);
          stored := stored + [services[i].handle];
          matched, count := matched + 1, count + 1;
          if matched >= total {
            done := true;
          } else if count >= room {
            done, next := true, Some(Low16(i + 1));
          } else {
            i := i + 1;
          }
        }
      }
      assert !done ==> stored + [] == stored;
    }

    method StoreHandle(pos: nat, ghost stored: seq<word>, handle: word)
      requires pos == 9 + 4 * |stored| && pos + 4 <= buffer.Length && buffer[9..pos] == HandleBytes(stored)
      modifies buffer
      ensures buffer[9..pos + 4] == HandleBytes(stored + [handle])
    {
      Store(pos, Net32(handle));
      HandleBytesSnoc(stored, handle);
      assert buffer[9..pos + 4] == buffer[9..pos] + buffer[pos..pos + 4];
    }
  }
}
