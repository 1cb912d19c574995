/**
 A client that asks the discovery server for page after page, with nothing but the
 bytes of the responses to go by: it sends back the continuation state of each
 response in its next request.
 */
module SdpClient {
  import opened Bytes
  import opened Sdp
  import SdpSearch
  import opened SdpServer

  /** The fields of a request besides the search pattern and the continuation state, and the connection's packet size. */
  datatype Request = Request(id: half, maximum: half, mtu: half)

  /** Room for the parts that a page cannot do without. */
  predicate AttributeRequest(r: Request) {
    19 <= r.mtu as nat <= RESPONSE_BUFFER_SIZE && r.maximum >= 7
  }

  function Limit(r: Request): (l: half)
    requires AttributeRequest(r)
    ensures 7 <= l as nat <= RESPONSE_BUFFER_SIZE
  {
    Min(r.mtu - 12, r.maximum)
  }

  /** What HandleServiceSearchAttributeRequest leaves in the response buffer. */
  function ServeAttributes(services: Services, r: Request, state: seq<byte>): seq<byte>
    requires AttributeRequest(r) && ContState(state) && Reachable(services, ReadCont(state))
  {
    PageIsPart(services, Limit(r), ReadCont(state));
    AttributeResponse(r.id, Page(services, Limit(r), ReadCont(state)))
  }

  // ------------------------------------------------- taking responses apart

  predicate IsAttributeResponse(response: seq<byte>) {
    |response| >= 7 && 7 + Be16(response[5], response[6]) as nat <= |response|
  }

  function BodyOf(response: seq<byte>): seq<byte>
    requires IsAttributeResponse(response)
  {
    response[7..7 + Be16(response[5], response[6]) as nat]
  }

  function StateOf(response: seq<byte>): seq<byte>
    requires IsAttributeResponse(response)
  {
    response[7 + Be16(response[5], response[6]) as nat..]
  }

  lemma ResponseParsed(id: half, page: (seq<byte>, Option<Cont>))
    requires |page.0| < 0xFFF0
    ensures var response := AttributeResponse(id, page);
            && IsAttributeResponse(response) && BodyOf(response) == page.0 && StateOf(response) == ContBytes(page.1)
  {
    var end, length: half := ContBytes(page.1), |page.0|;
    var head := [SERVICE_SEARCH_ATTRIBUTE_RESPONSE] + Net16(id) + Net16(2 + |page.0| + |end|) + Net16(length);
    var response := AttributeResponse(id, page);
    Net16Back(length);
    assert head[5] == Net16(length)[0] && head[6] == Net16(length)[1];
    hide Net16, ContBytes;
    ThreeParts(head, page.0, end);
    assert response[5] == head[5] && response[6] == head[6];
  }

  lemma ThreeParts(a: seq<byte>, b: seq<byte>, c: seq<byte>)
    ensures var whole := a + b + c; whole[|a|..|a| + |b|] == b && whole[|a| + |b|..] == c
  {
  }

  // -------------------------------------------------------- fetching a long answer

  predicate AllRequests(requests: seq<Request>) {
    forall i :: 0 <= i < |requests| ==> AttributeRequest(requests[i])
  }

  lemma StateServed(services: Services, r: Request, state: seq<byte>)
    requires AttributeRequest(r) && ContState(state) && Reachable(services, ReadCont(state))
    ensures var response, page := ServeAttributes(services, r, state), Page(services, Limit(r), ReadCont(state));
            && |response| <= r.mtu as nat && IsAttributeResponse(response)
            && BodyOf(response) == page.0 && StateOf(response) == ContBytes(page.1) && ContState(StateOf(response))
            && (page.1.Some? ==> ReadCont(StateOf(response)) == page.1.value && Reachable(services, page.1.value))
            && (page.1.Some? <==> StateOf(response)[0] != 0)
  {
    PageIsPart(services, Limit(r), ReadCont(state));
    var page := Page(services, Limit(r), ReadCont(state));
    ResponseParsed(r.id, page);
    ContRoundTrip(page.1);
    hide Page, Rest, Pending, Later, Net16;
  }

  /** The bodies of the responses, and the last continuation state, which is a zero byte at the end. */
  function Fetch(services: Services, state: seq<byte>, requests: seq<Request>): (seq<seq<byte>>, seq<byte>)
    requires AllRequests(requests) && ContState(state) && Reachable(services, ReadCont(state))
    decreases |requests|
  {
    if requests == [] then ([], state)
    else
      StateServed(services, requests[0], state);
      var response := ServeAttributes(services, requests[0], state);
      if StateOf(response)[0] == 0 then ([BodyOf(response)], StateOf(response))
      else
        var (more, end) := Fetch(services, StateOf(response), requests[1..]);
        ([BodyOf(response)] + more, end)
  }

  function Limits(requests: seq<Request>): (l: seq<half>)
    requires AllRequests(requests)
    ensures |l| == |requests| && Enough(l)
  {
    seq(|requests|, i requires 0 <= i < |requests| => Limit(requests[i]))
  }

  lemma {:induction false} FetchFollows(services: Services, state: seq<byte>, requests: seq<Request>)
    requires AllRequests(requests) && ContState(state) && Reachable(services, ReadCont(state))
    requires requests != []
    ensures var (bodies, last) := Fetch(services, state, requests);
            var (pages, end) := Follow(services, ReadCont(state), Limits(requests));
            bodies == pages && last != [] && (last[0] == 0 <==> end == None)
    decreases |requests|
  {
    StateServed(services, requests[0], state);
    assert Limits(requests)[1..] == Limits(requests[1..]);
    hide Page, ServeAttributes, BodyOf, StateOf, ReadCont, ContBytes, Reachable;
    var response, page := ServeAttributes(services, requests[0], state), Page(services, Limit(requests[0]), ReadCont(state));
    if page.1.Some? && requests[1..] != [] {
      FetchFollows(services, StateOf(response), requests[1..]);
    } else if page.1.Some? {
      assert Follow(services, page.1.value, Limits(requests[1..])) == ([], page.1);
      assert Fetch(services, StateOf(response), requests[1..]) == ([], StateOf(response));
    }
  }

  /**
   Whatever the limits of its requests, a client that follows the continuation
   states gets the one-shot answer: a prefix of it at every moment, all of it when
   the state is a zero byte, and that after at most one request more than the
   answer has bytes.
   */
  lemma {:induction false} FetchedAnswer(services: Services, requests: seq<Request>)
    requires requests != [] && AllRequests(requests)
    ensures ContState([0]) && Reachable(services, ReadCont([0]))
    ensures var (bodies, last) := Fetch(services, [0], requests);
            && last != [] && Join(bodies) <= OneShot(services)
            && (last[0] == 0 ==> Join(bodies) == OneShot(services))
            && (|requests| > |OneShot(services)| ==> last[0] == 0)
  {
    FetchFollows(services, [0], requests);
    PagesMakeTheAnswer(services, Limits(requests));
    hide Fetch, Follow, OneShot, Join;
  }

  // ------------------------------------------------------- fetching record handles

  predicate SearchRequest(r: Request) {
    16 <= r.mtu as nat <= RESPONSE_BUFFER_SIZE
  }

  function Room(r: Request): (n: nat)
    requires SearchRequest(r)
    ensures 1 <= n <= 60
  {
    (r.mtu - 12) / 4
  }

  function ReadHandles(bytes: seq<byte>): seq<word>
    decreases |bytes|
  {
    if |bytes| < 4 then []
    else [0x1_0000 * Be16(bytes[0], bytes[1]) as nat + Be16(bytes[2], bytes[3]) as nat] + ReadHandles(bytes[4..])
  }

  lemma Net32Back(n: word)
    ensures 0x1_0000 * Be16(Net32(n)[0], Net32(n)[1]) as nat + Be16(Net32(n)[2], Net32(n)[3]) as nat == n
  {
    var high, low: nat := n / 0x1_0000, n % 0x1_0000;
    Net16Back(high);
    Net16Back(low);
    hide Net16;
    assert Net32(n)[..2] == Net16(high) && Net32(n)[2..] == Net16(low);
    assert Net32(n)[0] == Net16(high)[0] && Net32(n)[1] == Net16(high)[1];
    assert Net32(n)[2] == Net16(low)[0] && Net32(n)[3] == Net16(low)[1];
  }

  lemma {:induction false} HandlesRead(handles: seq<word>)
    ensures ReadHandles(HandleBytes(handles)) == handles
    decreases |handles|
  {
    if handles != [] {
      Net32Back(handles[0]);
      HandlesRead(handles[1..]);
      hide Net32;
      var bytes := HandleBytes(handles);
      assert bytes[..4] == Net32(handles[0]) && bytes[4..] == HandleBytes(handles[1..]);
      assert forall i :: 0 <= i < 4 ==> bytes[i] == Net32(handles[0])[i];
    }
  }

  predicate IsSearchResponse(response: seq<byte>) {
    |response| >= 9 && 9 + 4 * Be16(response[7], response[8]) as nat <= |response|
  }

  function HandlesOf(response: seq<byte>): seq<word>
    requires IsSearchResponse(response)
  {
    ReadHandles(response[9..9 + 4 * Be16(response[7], response[8]) as nat])
  }

  function SearchStateOf(response: seq<byte>): seq<byte>
    requires IsSearchResponse(response)
  {
    response[9 + 4 * Be16(response[7], response[8]) as nat..]
  }

  lemma SearchResponseParsed(id: half, total: half, page: (seq<word>, Option<half>))
    requires |page.0| < 0x3FF0
    ensures var response := SearchResponse(id, total, page);
            && IsSearchResponse(response) && HandlesOf(response) == page.0
            && SearchStateOf(response) == IndexBytes(page.1)
  {
    var end, bytes, count: half := IndexBytes(page.1), HandleBytes(page.0), |page.0|;
    var size: half := 4 + |bytes| + |end|;
    var head := [SERVICE_SEARCH_RESPONSE] + Net16(id) + Net16(size) + Net16(total) + Net16(count);
    Net16Back(count);
    HandlesRead(page.0);
    hide Net16, IndexBytes, HandleBytes, ReadHandles;
    assert head[7] == Net16(count)[0] && head[8] == Net16(count)[1];
    ThreeParts(head, bytes, end);
    var response := SearchResponse(id, total, page);
    assert response == head + bytes + end;
    assert response[7] == head[7] && response[8] == head[8];
  }

  /** What HandleServiceSearchRequest leaves in the response buffer. */
  function ServeSearch(services: Services, maximum: half, r: Request, state: seq<byte>): seq<byte>
    requires SearchRequest(r) && IndexState(state)
  {
    SdpSearch.ScanFits(services, 0, ReadIndex(state), SdpSearch.Total(services, maximum), Room(r), 0, 0);
    SearchResponse(r.id, SdpSearch.Total(services, maximum),
                   SdpSearch.SearchPage(services, maximum, Room(r), ReadIndex(state)))
  }

  lemma SearchServed(services: Services, maximum: half, r: Request, state: seq<byte>)
    requires SearchRequest(r) && IndexState(state)
    ensures var response := ServeSearch(services, maximum, r, state);
            var page := SdpSearch.SearchPage(services, maximum, Room(r), ReadIndex(state));
            && |response| <= r.mtu as nat && IsSearchResponse(response) && HandlesOf(response) == page.0
            && SearchStateOf(response) == IndexBytes(page.1) && IndexState(SearchStateOf(response))
            && (page.1.Some? ==> ReadIndex(SearchStateOf(response)) == page.1.value)
            && (page.1.Some? <==> SearchStateOf(response)[0] != 0)
  {
    var from := ReadIndex(state);
    SdpSearch.ScanFits(services, 0, from, SdpSearch.Total(services, maximum), Room(r), 0, 0);
    var page := SdpSearch.SearchPage(services, maximum, Room(r), from);
    hide SdpSearch.SearchPage, SdpSearch.Handles, ReadHandles, Net16;
    SearchResponseParsed(r.id, SdpSearch.Total(services, maximum), page);
    IndexRoundTrip(page.1);
  }

  predicate AllSearches(requests: seq<Request>) {
    forall i :: 0 <= i < |requests| ==> SearchRequest(requests[i])
  }

  /** The handles in the responses to searches for at most `maximum` records. */
  function FetchHandles(services: Services, maximum: half, state: seq<byte>, requests: seq<Request>)
    : (seq<seq<word>>, seq<byte>)
    requires AllSearches(requests) && IndexState(state)
    decreases |requests|
  {
    if requests == [] then ([], state)
    else
      SearchServed(services, maximum, requests[0], state);
      var response := ServeSearch(services, maximum, requests[0], state);
      if SearchStateOf(response)[0] == 0 then ([HandlesOf(response)], SearchStateOf(response))
      else
        var (more, end) := FetchHandles(services, maximum, SearchStateOf(response), requests[1..]);
        ([HandlesOf(response)] + more, end)
  }

  function Rooms(requests: seq<Request>): (n: seq<nat>)
    requires AllSearches(requests)
    ensures |n| == |requests| && SdpSearch.Positive(n)
  {
    seq(|requests|, i requires 0 <= i < |requests| => Room(requests[i]))
  }

  lemma {:induction false} HandlesFollow(services: Services, maximum: half, state: seq<byte>, requests: seq<Request>)
    requires AllSearches(requests) && IndexState(state) && requests != []
    ensures var (fetched, last) := FetchHandles(services, maximum, state, requests);
            var (pages, end) := SdpSearch.Follow(services, maximum, ReadIndex(state), Rooms(requests));
            fetched == pages && last != [] && (last[0] == 0 <==> end == None)
    decreases |requests|
  {
    SearchServed(services, maximum, requests[0], state);
    assert Rooms(requests)[1..] == Rooms(requests[1..]);
    hide SdpSearch.SearchPage, ServeSearch, HandlesOf, SearchStateOf, ReadIndex, IndexBytes;
    var response := ServeSearch(services, maximum, requests[0], state);
    var page := SdpSearch.SearchPage(services, maximum, Room(requests[0]), ReadIndex(state));
    if page.1.Some? && requests[1..] != [] {
      HandlesFollow(services, maximum, SearchStateOf(response), requests[1..]);
    } else if page.1.Some? {
      assert SdpSearch.Follow(services, maximum, page.1.value, Rooms(requests[1..])) == ([], page.1);
      assert FetchHandles(services, maximum, SearchStateOf(response), requests[1..]) == ([], SearchStateOf(response));
    }
  }

  /** A client that follows the states gets the first handles in list order, as many as it wants and there are. */
  lemma {:induction false} FetchedHandles(services: Services, maximum: half, requests: seq<Request>)
    requires maximum >= 1 && requests != [] && AllSearches(requests)
    ensures IndexState([0])
    ensures var (fetched, last) := FetchHandles(services, maximum, [0], requests);
            var wanted := SdpSearch.Handles(services)[..SdpSearch.Total(services, maximum)];
            && last != [] && SdpSearch.Join(fetched) <= wanted
            && (last[0] == 0 ==> SdpSearch.Join(fetched) == wanted)
            && (|requests| >= |wanted| ==> last[0] == 0)
  {
    HandlesFollow(services, maximum, [0], requests);
    SdpSearch.PagesMakeTheList(services, maximum, Rooms(requests));
    hide FetchHandles, SdpSearch.Follow, SdpSearch.Join;
  }

  // ---------------------------------------------------------------- headers

  /** The type, the transaction of the request, and the size of all that follows. */
  predicate Headed(response: seq<byte>, kind: byte, id: half) {
    |response| >= 7 && response[0] == kind && Be16(response[1], response[2]) == id
    && 5 + Be16(response[3], response[4]) as nat == |response|
  }

  /** A continuation state begins with the number of bytes behind it. */
  predicate WholeState(state: seq<byte>) {
    state != [] && |state| == 1 + state[0] as int
  }

  lemma HeaderFields(kind: byte, id: half, size: half, more: seq<byte>)
    requires |more| == size && size >= 2
    ensures Headed([kind] + Net16(id) + Net16(size) + more, kind, id)
  {
    Net16Back(id);
    Net16Back(size);
    hide Net16;
    var response := [kind] + Net16(id) + Net16(size) + more;
    assert response[1] == Net16(id)[0] && response[2] == Net16(id)[1];
    assert response[3] == Net16(size)[0] && response[4] == Net16(size)[1];
  }

  /** Responses to attribute requests are headed, and have nothing behind the continuation state. */
  lemma AttributeHeader(services: Services, r: Request, state: seq<byte>)
    requires AttributeRequest(r) && ContState(state) && Reachable(services, ReadCont(state))
    ensures var response := ServeAttributes(services, r, state);
            Headed(response, 7, r.id) && IsAttributeResponse(response) && WholeState(StateOf(response))
  {
    PageIsPart(services, Limit(r), ReadCont(state));
    StateServed(services, r, state);
    PageHeaded(r.id, Page(services, Limit(r), ReadCont(state)));
    hide Page, AttributeResponse, ContBytes, BodyOf, StateOf, Headed, WholeState, Rest, Pending, Later;
  }

  lemma PageHeaded(id: half, page: (seq<byte>, Option<Cont>))
    requires |page.0| < 0xFFF0
    ensures Headed(AttributeResponse(id, page), 7, id) && WholeState(ContBytes(page.1))
  {
    var end, length: half := ContBytes(page.1), |page.0|;
    assert WholeState(end);
    var size: half := 2 + |page.0| + |end|;
    HeaderFields(7, id, size, Net16(length) + page.0 + end);
    hide Net16, ContBytes, Headed;
    var front := [7 as byte] + Net16(id) + Net16(size);
    ConcatAssoc(front, Net16(length), page.0);
    ConcatAssoc(front, Net16(length) + page.0, end);
  }

  /** So are responses to searches, which also tell how many records there are for the client. */
  lemma SearchHeaded(services: Services, maximum: half, r: Request, state: seq<byte>)
    requires SearchRequest(r) && IndexState(state)
    ensures var response := ServeSearch(services, maximum, r, state);
            && Headed(response, 3, r.id) && IsSearchResponse(response) && WholeState(SearchStateOf(response))
            && Be16(response[5], response[6]) == SdpSearch.Total(services, maximum)
            && Be16(response[7], response[8]) as nat == |HandlesOf(response)|
  {
    var total := SdpSearch.Total(services, maximum);
    SdpSearch.ScanFits(services, 0, ReadIndex(state), total, Room(r), 0, 0);
    SearchServed(services, maximum, r, state);
    var page := SdpSearch.SearchPage(services, maximum, Room(r), ReadIndex(state));
    SearchPageHeaded(r.id, total, page);
    SearchResponseParsed(r.id, total, page);
    hide SdpSearch.SearchPage, SdpSearch.Total, SearchResponse, IndexBytes, Headed, WholeState, HandlesOf, SearchStateOf, ReadIndex;
  }

  lemma SearchPageHeaded(id: half, total: half, page: (seq<word>, Option<half>))
    requires |page.0| < 0x3FF0
    ensures var response := SearchResponse(id, total, page);
            && Headed(response, 3, id) && WholeState(IndexBytes(page.1)) && |response| >= 9
            && Be16(response[5], response[6]) == total && Be16(response[7], response[8]) as nat == |page.0|
  {
    var end, handles, count: half := IndexBytes(page.1), HandleBytes(page.0), |page.0|;
    assert WholeState(end);
    var size: half := 4 + 4 * |page.0| + |end|;
    var rest := Net16(total) + Net16(count) + handles + end;
    HeaderFields(3, id, size, rest);
    hide Headed, WholeState, Net16, IndexBytes, HandleBytes;
    var front := [3 as byte] + Net16(id) + Net16(size);
    ConcatAssoc(front, Net16(total), Net16(count));
    ConcatAssoc(front, Net16(total) + Net16(count), handles);
    ConcatAssoc(front, Net16(total) + Net16(count) + handles, end);
    assert SearchResponse(id, total, page) == front + rest;
    TwoWords(front, total, count, handles + end);
    ConcatAssoc(Net16(total) + Net16(count), handles, end);
  }

  lemma TwoWords(front: seq<byte>, a: half, b: half, more: seq<byte>)
    requires |front| == 5
    ensures var whole := front + (Net16(a) + Net16(b) + more);
            Be16(whole[5], whole[6]) == a && Be16(whole[7], whole[8]) == b
  {
    Net16Back(a);
    Net16Back(b);
    hide Net16;
  }
}
