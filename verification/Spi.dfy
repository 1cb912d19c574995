/**
 The SPI master (app_layer_v1/spi.c). A packet shifts `total` bytes out and the
 same number in, through a pair of FIFOs of eight bytes each; what comes in is
 passed to the host without its first `trim` bytes.

 The queues are sequences of bytes here; module SpiModule ties them to the ring
 buffers.
 */
module Spi {
  import opened Bytes
  import opened Credit

  const RX_BUF_SIZE := 256
  const TX_BUF_SIZE := 256
  const FIFO_SIZE := 8

  /**
   The fields of SPI_STATE between interrupts, when no packet is in the transient
   DONE state. `inFlight` counts the bytes that are in the FIFOs and the shift
   register; `out` and `got` record what the current packet has shifted out and in.
   */
  datatype Dev = Dev(
    inProgress: bool, unreported: int, dest: byte, totalTx: byte, dataTx: byte, trimRx: byte, totalRx: byte,
    rxSize: byte, canSend: byte, rx: seq<byte>, ready: int, tx: seq<byte>, enabled: bool, overflow: bool,
    inFlight: int, out: seq<byte>, got: seq<byte>)

  function Increment(b: byte): byte {
    if b == 0xFF then 0 else b + 1
  }

  function Decrement(b: byte): byte {
    if b == 0 then 0xFF else b - 1
  }

  function Minus(a: byte, b: byte): byte {
    if a < b then a - b + 0x100 else a - b
  }

  function PushRx(s: Dev, b: byte): Dev {
    if |s.rx| == RX_BUF_SIZE then s.(overflow := true) else s.(rx := s.rx + [b])
  }

  /** Four header bytes come out of the queue. */
  function TakeHeader(s: Dev): Dev
    requires |s.tx| >= 4
  {
    Dev(true, s.unreported + 4, s.tx[0], s.tx[1], s.tx[2], s.tx[3], s.tx[1], Minus(s.tx[1], s.tx[3]), FIFO_SIZE,
        s.rx, s.ready, s.tx[4..], s.enabled, s.overflow, s.inFlight, [], [])
  }

  /** The start of a packet, which also announces its report. */
  function Begin(s: Dev): Dev
    requires |s.tx| >= 4
  {
    var t := TakeHeader(s);
    if t.rxSize > 0 then PushRx(PushRx(t, t.dest), t.rxSize) else t
  }

  function ReadByte(s: Dev, b: byte): Dev {
    var t := if s.trimRx != 0 then s.(trimRx := s.trimRx - 1) else PushRx(s, b);
    t.(totalRx := Decrement(s.totalRx), canSend := Increment(s.canSend), inFlight := s.inFlight - 1, got := s.got + [b])
  }

  /** Reads what has arrived. */
  function ReadAll(s: Dev, arrived: seq<byte>): Dev
    decreases |arrived|
  {
    if arrived == [] then s else ReadAll(ReadByte(s, arrived[0]), arrived[1..])
  }

  function WriteByte(s: Dev): Dev
    requires s.dataTx > 0 ==> s.tx != []
  {
    var t := if s.dataTx > 0
             then s.(out := s.out + [s.tx[0]], tx := s.tx[1..], dataTx := s.dataTx - 1, unreported := s.unreported + 1)
             else s.(out := s.out + [0xFF]);
    t.(totalTx := Decrement(s.totalTx), canSend := Decrement(s.canSend), inFlight := s.inFlight + 1)
  }

  /** The pulls of the next n writes find a byte. */
  predicate CanWrite(s: Dev, n: nat) {
    s.dataTx as nat <= |s.tx| || n <= |s.tx|
  }

  function WriteMany(s: Dev, n: nat): Dev
    requires CanWrite(s, n)
    decreases n
  {
    if n == 0 then s else WriteMany(WriteByte(s), n - 1)
  }

  function ToWrite(s: Dev): byte {
    if s.totalTx > s.canSend then s.canSend else s.totalTx
  }

  /** The end of a packet, which sets the interrupt flag again if another one waits. */
  function Finish(s: Dev): Dev {
    s.(ready := if s.rxSize != 0 then s.ready + 1 else s.ready, inProgress := false, enabled := |s.tx| > 0)
  }

  /** The assertions of the interrupt handler. */
  predicate CanInterrupt(s: Dev, arrived: seq<byte>) {
    if !s.inProgress then |s.tx| >= 4 && arrived == [] && CanWrite(Begin(s), ToWrite(Begin(s)))
    else
      var t := ReadAll(s, arrived);
      t.totalRx != 0 ==> CanWrite(t, ToWrite(t))
  }

  /** The interrupt handler; `arrived` is what it finds in the receive FIFO. */
  function Interrupt(s: Dev, arrived: seq<byte>): Dev
    requires CanInterrupt(s, arrived)
  {
    if !s.inProgress then WriteMany(Begin(s), ToWrite(Begin(s)))
    else
      var t := ReadAll(s, arrived);
      if t.totalRx == 0 then Finish(t) else WriteMany(t, ToWrite(t))
  }

  // ---------------------------------------------------------------- one packet

  /** Sizes as the protocol can express them. */
  type PacketSize = n: nat | 1 <= n <= 64 witness 1

  type Pin = n: nat | n < 64

  type Payload = s: seq<byte> | |s| < 0x100

  datatype Request = Request(dest: Pin, data: Payload, total: PacketSize, trim: byte)

  function Header(r: Request): seq<byte> {
    [r.dest, r.total, |r.data|, r.trim]
  }

  function EncodeRequest(r: Request): seq<byte> {
    Header(r) + r.data
  }

  /** What a packet is to shift out: its data, cut or padded with 0xFF to the total size. */
  function Padded(r: Request): (p: seq<byte>)
    ensures |p| == r.total
  {
    seq(r.total, i requires 0 <= i < r.total => if i < |r.data| then r.data[i] else 0xFF)
  }

  function Min(a: nat, b: nat): nat {
    if a < b then a else b
  }

  /** What the packet has put into the receive queue: nothing at all when everything is to be trimmed. */
  function Received(d: Dev, trim: nat): seq<byte> {
    if d.rxSize == 0 then []
    else [d.dest, d.rxSize] + if trim <= |d.got| then d.got[trim..] else []
  }

  /** In the middle of the packet of request r, with `rest` behind its data in the queue. */
  predicate During(d: Dev, r: Request, rest: seq<byte>) {
    var sent, got := |d.out|, |d.got|;
    && got <= sent <= r.total && sent - got <= FIFO_SIZE
    && d.inProgress && d.dest == r.dest && d.rxSize == Minus(r.total, r.trim)
    && d.totalTx == r.total - sent && d.totalRx == r.total - got
    && d.canSend == FIFO_SIZE - (sent - got) && d.inFlight == sent - got
    && d.out == Padded(r)[..sent]
    && d.tx == r.data[Min(sent, |r.data|)..] + rest && d.dataTx == |r.data| - Min(sent, |r.data|)
    && d.trimRx == r.trim - Min(got, r.trim)
  }

  lemma WriteByteKeeps(d: Dev, r: Request, rest: seq<byte>)
    requires During(d, r, rest) && d.totalTx > 0 && d.canSend > 0
    ensures d.dataTx > 0 ==> d.tx != []
    ensures During(WriteByte(d), r, rest)
  {
    var sent := |d.out|;
    assert Padded(r)[..sent] + [Padded(r)[sent]] == Padded(r)[..sent + 1];
    if sent < |r.data| {
      assert r.data[sent..] == [r.data[sent]] + r.data[sent + 1..];
      assert d.tx == [r.data[sent]] + (r.data[sent + 1..] + rest);
    }
  }

  /** As much as possible is written: the FIFO is full or the whole packet is in it. */
  lemma {:induction false} WriteManyKeeps(d: Dev, r: Request, rest: seq<byte>, n: nat)
    requires During(d, r, rest) && n <= d.totalTx as nat && n <= d.canSend as nat
    ensures CanWrite(d, n)
    ensures var e := WriteMany(d, n);
            && During(e, r, rest) && e.totalTx as nat == d.totalTx as nat - n && e.canSend as nat == d.canSend as nat - n
            && e == d.(unreported := e.unreported, totalTx := e.totalTx, dataTx := e.dataTx, canSend := e.canSend,
                       tx := e.tx, inFlight := e.inFlight, out := e.out)
    decreases n
  {
    if n > 0 {
      WriteByteKeeps(d, r, rest);
      WriteManyKeeps(WriteByte(d), r, rest, n - 1);
    }
  }

  lemma ReadByteKeeps(d: Dev, r: Request, rest: seq<byte>, b: byte)
    requires During(d, r, rest) && d.inFlight > 0
    ensures During(ReadByte(d, b), r, rest)
  {
  }

  lemma {:induction false} ReadAllKeeps(d: Dev, r: Request, rest: seq<byte>, arrived: seq<byte>)
    requires During(d, r, rest) && |arrived| <= d.inFlight
    ensures var e := ReadAll(d, arrived);
            && During(e, r, rest) && e.got == d.got + arrived
            && e == d.(trimRx := e.trimRx, totalRx := e.totalRx, canSend := e.canSend, rx := e.rx,
                       overflow := e.overflow, inFlight := e.inFlight, got := e.got)
    decreases |arrived|
  {
    if arrived != [] {
      ReadByteKeeps(d, r, rest, arrived[0]);
      ReadAllKeeps(ReadByte(d, arrived[0]), r, rest, arrived[1..]);
      assert d.got + [arrived[0]] + arrived[1..] == d.got + arrived;
    }
  }

  lemma BeginDuring(d: Dev, r: Request, rest: seq<byte>)
    requires !d.inProgress && d.inFlight == 0 && d.tx == EncodeRequest(r) + rest
    ensures |d.tx| >= 4 && During(Begin(d), r, rest)
  {
    assert d.tx == Header(r) + (r.data + rest);
    assert d.tx[4..] == r.data + rest;
    assert r.data[0..] == r.data && Padded(r)[..0] == [];
  }
  // --------------------------------------------------------------- the system

  /** What the host is told about a packet. */
  datatype Report = Report(dest: Pin, data: Payload)

  datatype Packet = Packet(request: Request, out: seq<byte>, got: seq<byte>)

  /** The main loop inside SPITasks, between two steps that an interrupt can separate. */
  datatype Task =
    | Loop                            // before the test of the number of reports
    | GotDest(dest: Pin)              // the destination has been pulled
    | GotSize(dest: Pin, size: Pin)   // the size has been pulled; it is one less in the message
    | Releasing(length: nat)          // the message has been sent, the data not yet pulled
    | Released                        // before the number of reports is decremented
    | CheckReport                     // before the test of the number of unreported bytes
    | Reporting                       // the test has succeeded

  /**
   The module with the host at the other end of the connection. `issued`,
   `packets` and `reports` are a record that no step reads: the requests handed to
   the module, the packets that have ended and the reports they left.
   */
  datatype Sys = Sys(
    dev: Dev, task: Task, credit: int, toDevice: seq<Request>, toHost: seq<nat>, sent: seq<Report>,
    issued: seq<Request>, packets: seq<Packet>, reports: seq<Report>)

  datatype Event =
    | HostSends(request: Request)
    | HostReceives
    | Deliver                            // SPITransmit
    | Isr(arrived: seq<byte>)
    | TaskStep

  function RequestCost(r: Request): nat {
    4 + |r.data|
  }

  /** A packet is long enough for its data and for what is to be trimmed. */
  predicate WellSized(r: Request) {
    |r.data| <= r.total && r.trim as nat <= r.total
  }

  predicate Enabled(s: Sys, e: Event) {
    match e
    case HostSends(r) => s.credit >= RequestCost(r) && WellSized(r)
    case HostReceives => s.toHost != []
    case Deliver => s.task == Loop && s.toDevice != []
    case Isr(arrived) => s.dev.enabled && |arrived| <= s.dev.inFlight
    case TaskStep => true
  }

  function PushTx(s: Dev, data: seq<byte>): Dev {
    if |s.tx| + |data| > TX_BUF_SIZE && data != [] then s.(overflow := true) else s.(tx := s.tx + data)
  }

  /** SPITransmit: four single bytes and a buffer, with interrupts off. */
  function Transmit(d: Dev, r: Request): Dev {
    PushTx(PushTx(PushTx(PushTx(PushTx(d, [r.dest]), [r.total]), [|r.data|]), [r.trim]), r.data).(enabled := true)
  }

  function ReportOf(r: Request, got: seq<byte>): seq<Report> {
    if r.trim as nat < |got| <= r.total then [Report(r.dest, got[r.trim..])] else []
  }

  function IsrStep(s: Sys, arrived: seq<byte>): Sys
    requires CanInterrupt(s.dev, arrived)
  {
    var d := Interrupt(s.dev, arrived);
    if s.dev.inProgress && !d.inProgress && |s.packets| < |s.issued| then
      var r := s.issued[|s.packets|];
      s.(dev := d, packets := s.packets + [Packet(r, d.out, d.got)], reports := s.reports + ReportOf(r, d.got))
    else s.(dev := d)
  }

  /** The assertions of the queue operations that SPITasks calls. */
  predicate CanTask(s: Sys) {
    match s.task
    case Loop => s.dev.ready != 0 ==> s.dev.rx != []
    case GotDest(_) => s.dev.rx != []
    case GotSize(_, n) => n + 1 <= |s.dev.rx|
    case Releasing(n) => n <= |s.dev.rx|
    case _ => true
  }

  /** Six bits of a message field. */
  function Six(n: int): Pin {
    n % 64
  }

  function TaskStepOf(s: Sys): Sys
    requires CanTask(s)
  {
    match s.task
    case Loop =>
      if s.dev.ready == 0 then s.(task := CheckReport)
      else s.(task := GotDest(Six(s.dev.rx[0])), dev := s.dev.(rx := s.dev.rx[1..]))
    case GotDest(dest) =>
      s.(task := GotSize(dest, Six(s.dev.rx[0] as int - 1)), dev := s.dev.(rx := s.dev.rx[1..]))
    case GotSize(dest, n) => s.(task := Releasing(n + 1), sent := s.sent + [Report(dest, s.dev.rx[..n + 1])])
    case Releasing(n) => s.(task := Released, dev := s.dev.(rx := s.dev.rx[n..]))
    case Released => s.(task := Loop, dev := s.dev.(ready := s.dev.ready - 1))
    case CheckReport => s.(task := if s.dev.unreported > TX_BUF_SIZE / 2 then Reporting else Loop)
    case Reporting =>
      s.(task := Loop, dev := s.dev.(unreported := 0),
         toHost := s.toHost + [if s.dev.unreported >= 0 then s.dev.unreported else 0])
  }

  predicate CanStep(s: Sys, e: Event) {
    match e
    case Isr(arrived) => CanInterrupt(s.dev, arrived)
    case TaskStep => CanTask(s)
    case _ => true
  }

  function Step(s: Sys, e: Event): Sys
    requires Enabled(s, e) && CanStep(s, e)
  {
    match e
    case HostSends(r) => s.(credit := s.credit - RequestCost(r), toDevice := s.toDevice + [r])
    case HostReceives => s.(credit := s.credit + s.toHost[0], toHost := s.toHost[1..])
    case Deliver =>
      s.(toDevice := s.toDevice[1..], dev := Transmit(s.dev, s.toDevice[0]), issued := s.issued + [s.toDevice[0]])
    case Isr(arrived) => IsrStep(s, arrived)
    case TaskStep => TaskStepOf(s)
  }

  /** After SPIConfigMaster: empty queues, and the whole transmit buffer unreported. */
  function Configured(): Sys {
    Sys(Dev(false, TX_BUF_SIZE, 0, 0, 0, 0, 0, 0, 0, [], 0, [], false, false, 0, [], []),
        Loop, 0, [], [], [], [], [], [])
  }

  // ------------------------------------------------------------ the invariant

  function EncodeRequests(requests: seq<Request>): seq<byte> {
    if requests == [] then [] else EncodeRequest(requests[0]) + EncodeRequests(requests[1..])
  }

  predicate Sized(o: Report) {
    1 <= |o.data| <= 64
  }

  function EncodeReport(o: Report): seq<byte> {
    [o.dest, |o.data|] + o.data
  }

  function EncodeReports(reports: seq<Report>): seq<byte> {
    if reports == [] then [] else EncodeReport(reports[0]) + EncodeReports(reports[1..])
  }

  function Reports(packets: seq<Packet>): seq<Report> {
    if packets == [] then []
    else
      var n := |packets| - 1;
      Reports(packets[..n]) + ReportOf(packets[n].request, packets[n].got)
  }

  /** Nothing more can be written, and something is still to come in. */
  predicate Waiting(d: Dev) {
    d.totalRx > 0 && (d.totalTx == 0 || d.canSend == 0)
  }

  ghost predicate TxInv(s: Sys) {
    var k := |s.packets|;
    && k <= |s.issued|
    && (forall r :: r in s.issued ==> WellSized(r))
    && if s.dev.inProgress then
         && k < |s.issued| && s.dev.enabled && Waiting(s.dev)
         && During(s.dev, s.issued[k], EncodeRequests(s.issued[k + 1..]))
       else
         && s.dev.inFlight == 0 && s.dev.tx == EncodeRequests(s.issued[k..])
         && (s.dev.enabled <==> k < |s.issued|)
  }

  /** The packet was shifted out as it should, and its report is right. */
  predicate Fits(r: Request, p: Packet) {
    p.request == r && p.out == Padded(r) && |p.got| == r.total
  }

  ghost predicate PacketsInv(s: Sys) {
    && |s.packets| <= |s.issued|
    && (forall i :: 0 <= i < |s.packets| ==> Fits(s.issued[i], s.packets[i]))
    && s.reports == Reports(s.packets)
  }

  predicate Claiming(s: Sys) {
    s.task.GotDest? || s.task.GotSize?
  }

  /** Reports whose destination byte the main loop has pulled. */
  function ClaimedCount(s: Sys): nat {
    |s.sent| + if Claiming(s) then 1 else 0
  }

  /** Bytes at the head of the receive queue that belong to a report already claimed. */
  function Held(s: Sys): seq<byte> {
    if Claiming(s) && |s.sent| < |s.reports| then
      var data := s.reports[|s.sent|].data;
      if s.task.GotDest? then [|data|] + data else data
    else if s.task.Releasing? && 0 < |s.sent| then s.sent[|s.sent| - 1].data
    else []
  }

  function Arriving(s: Sys): seq<byte> {
    if s.dev.inProgress && |s.packets| < |s.issued| then Received(s.dev, s.issued[|s.packets|].trim) else []
  }

  predicate TaskOk(s: Sys) {
    match s.task
    case GotDest(dest) => |s.sent| < |s.reports| && dest == s.reports[|s.sent|].dest
    case GotSize(dest, n) =>
      |s.sent| < |s.reports| && dest == s.reports[|s.sent|].dest && n + 1 == |s.reports[|s.sent|].data|
    case Releasing(n) => 0 < |s.sent| && n == |s.sent[|s.sent| - 1].data|
    case Released => 0 < |s.sent|
    case _ => true
  }

  ghost predicate RxInv(s: Sys) {
    && (forall o :: o in s.reports ==> Sized(o))
    && ClaimedCount(s) <= |s.reports| && s.sent == s.reports[..|s.sent|]
    && TaskOk(s)
    && |s.dev.rx| <= RX_BUF_SIZE
    && s.dev.rx == Held(s) + EncodeReports(s.reports[ClaimedCount(s)..]) + Arriving(s)
    && s.dev.ready == |s.reports| - |s.sent| + if s.task.Releasing? || s.task.Released? then 1 else 0
  }

  function TotalCost(requests: seq<Request>): nat {
    if requests == [] then 0 else RequestCost(requests[0]) + TotalCost(requests[1..])
  }

  /** Every byte of the transmit buffer is accounted for exactly once. */
  predicate CreditInv(s: Sys) {
    && s.credit >= 0 && s.dev.unreported >= 0
    && s.credit + TotalCost(s.toDevice) + |s.dev.tx| + s.dev.unreported + Total(s.toHost) == TX_BUF_SIZE
    && (forall r :: r in s.toDevice ==> WellSized(r))
  }

  ghost predicate Inv(s: Sys) {
    TxInv(s) && RxInv(s) && PacketsInv(s) && CreditInv(s)
  }

  // ----------------------------------------- interrupts and the transmit queue

  lemma EncodeRequestsFirst(requests: seq<Request>, k: nat)
    requires k < |requests|
    ensures EncodeRequests(requests[k..]) == EncodeRequest(requests[k]) + EncodeRequests(requests[k + 1..])
  {
    assert requests[k..][1..] == requests[k + 1..];
  }

  lemma {:induction false} EncodeRequestsSnoc(requests: seq<Request>, r: Request)
    ensures EncodeRequests(requests + [r]) == EncodeRequests(requests) + EncodeRequest(r)
  {
    if requests == [] {
      assert [r][1..] == [] && [] + [r] == [r];
    } else {
      assert (requests + [r])[1..] == requests[1..] + [r];
      EncodeRequestsSnoc(requests[1..], r);
      ConcatAssoc(EncodeRequest(requests[0]), EncodeRequests(requests[1..]), EncodeRequest(r));
    }
  }

  lemma NothingToEncode(requests: seq<Request>)
    ensures EncodeRequests(requests) == [] <==> requests == []
  {
  }

  lemma WriteRest(d: Dev, r: Request, rest: seq<byte>)
    requires During(d, r, rest) && d.totalRx > 0
    ensures CanWrite(d, ToWrite(d))
    ensures var e := WriteMany(d, ToWrite(d));
            && During(e, r, rest) && Waiting(e)
            && e == d.(unreported := e.unreported, totalTx := e.totalTx, dataTx := e.dataTx, canSend := e.canSend,
                       tx := e.tx, inFlight := e.inFlight, out := e.out)
  {
    hide During;
    WriteManyKeeps(d, r, rest, ToWrite(d));
  }

  lemma StartKeepsTx(s: Sys, arrived: seq<byte>)
    requires TxInv(s) && !s.dev.inProgress && s.dev.enabled && |arrived| <= s.dev.inFlight
    ensures CanInterrupt(s.dev, arrived) && TxInv(IsrStep(s, arrived))
  {
    var k := |s.packets|;
    var r, rest := s.issued[k], EncodeRequests(s.issued[k + 1..]);
    EncodeRequestsFirst(s.issued, k);
    hide EncodeRequests, EncodeRequest;
    BeginDuring(s.dev, r, rest);
    assert Begin(s.dev).totalRx > 0;
    WriteRest(Begin(s.dev), r, rest);
    hide During, Begin, WriteMany;
    BeginFrame(s.dev);
  }

  lemma BeginFrame(d: Dev)
    requires |d.tx| >= 4
    ensures Begin(d).inProgress && Begin(d).enabled == d.enabled
  {
  }

  /** At the end of a packet exactly the requests behind it are in the queue. */
  lemma PacketDone(d: Dev, r: Request, rest: seq<byte>)
    requires During(d, r, rest) && d.totalRx == 0
    ensures d.out == Padded(r) && |d.got| == r.total && d.inFlight == 0
    ensures d.tx == r.data[Min(r.total, |r.data|)..] + rest
    ensures |r.data| <= r.total ==> d.tx == rest
  {
    assert Padded(r)[..r.total] == Padded(r);
  }

  lemma MoreKeepsTx(s: Sys, arrived: seq<byte>)
    requires TxInv(s) && s.dev.inProgress && |arrived| <= s.dev.inFlight
    ensures CanInterrupt(s.dev, arrived) && TxInv(IsrStep(s, arrived))
  {
    var k := |s.packets|;
    var r, rest := s.issued[k], EncodeRequests(s.issued[k + 1..]);
    hide EncodeRequests, During;
    ReadAllKeeps(s.dev, r, rest, arrived);
    var t := ReadAll(s.dev, arrived);
    if t.totalRx == 0 {
      assert r in s.issued;
      PacketDone(t, r, rest);
      NothingToEncode(s.issued[k + 1..]);
      assert s.issued[k + 1..] == [] || k + 1 < |s.issued|;
    } else {
      WriteRest(t, r, rest);
    }
  }

  /** The handler finds what it needs, and never anything in the FIFO before a packet starts. */
  lemma IsrKeepsTx(s: Sys, arrived: seq<byte>)
    requires TxInv(s) && s.dev.enabled && |arrived| <= s.dev.inFlight
    ensures CanInterrupt(s.dev, arrived) && TxInv(IsrStep(s, arrived))
  {
    if s.dev.inProgress { MoreKeepsTx(s, arrived); } else { StartKeepsTx(s, arrived); }
  }

  lemma ReportsSnoc(packets: seq<Packet>, p: Packet)
    ensures Reports(packets + [p]) == Reports(packets) + ReportOf(p.request, p.got)
  {
    assert (packets + [p])[..|packets|] == packets;
  }

  lemma IsrKeepsPackets(s: Sys, arrived: seq<byte>)
    requires TxInv(s) && PacketsInv(s) && CanInterrupt(s.dev, arrived) && |arrived| <= s.dev.inFlight
    ensures PacketsInv(IsrStep(s, arrived))
  {
    hide EncodeRequests, During, Begin, WriteMany, Reports;
    if s.dev.inProgress {
      var k := |s.packets|;
      var r, rest := s.issued[k], EncodeRequests(s.issued[k + 1..]);
      ReadAllKeeps(s.dev, r, rest, arrived);
      var t := ReadAll(s.dev, arrived);
      if t.totalRx == 0 {
        PacketDone(t, r, rest);
        ReportsSnoc(s.packets, Packet(r, t.out, t.got));
      } else {
        WriteRest(t, r, rest);
      }
    }
  }

  // -------------------------------------------------------- the receive queue

  /** Behind `base` there is what the current packet has put into the receive queue. */
  predicate RxOk(d: Dev, r: Request, base: seq<byte>) {
    d.overflow || (|d.rx| <= RX_BUF_SIZE && d.rx == base + Received(d, r.trim))
  }

  lemma BeginRx(d: Dev, r: Request, rest: seq<byte>)
    requires !d.inProgress && |d.tx| >= 4 && During(Begin(d), r, rest) && |d.rx| <= RX_BUF_SIZE
    ensures RxOk(Begin(d), r, d.rx) && (d.overflow ==> Begin(d).overflow)
    ensures Begin(d).ready == d.ready
  {
  }

  lemma ReadByteRx(d: Dev, r: Request, rest: seq<byte>, b: byte, base: seq<byte>)
    requires During(d, r, rest) && d.inFlight > 0 && WellSized(r) && RxOk(d, r, base)
    ensures RxOk(ReadByte(d, b), r, base)
  {
    hide Padded;
    if r.trim as nat <= |d.got| {
      assert (d.got + [b])[r.trim..] == d.got[r.trim..] + [b];
      ConcatAssoc(base, Received(d, r.trim), [b]);
      ConcatAssoc([d.dest, d.rxSize], d.got[r.trim..], [b]);
    }
  }

  lemma {:induction false} ReadAllRx(d: Dev, r: Request, rest: seq<byte>, arrived: seq<byte>, base: seq<byte>)
    requires During(d, r, rest) && |arrived| <= d.inFlight && WellSized(r) && RxOk(d, r, base)
    ensures RxOk(ReadAll(d, arrived), r, base)
    decreases |arrived|
  {
    if arrived != [] {
      ReadByteKeeps(d, r, rest, arrived[0]);
      ReadByteRx(d, r, rest, arrived[0], base);
      assert ReadByte(d, arrived[0]).inFlight == d.inFlight - 1;
      hide During, ReadByte;
      ReadAllRx(ReadByte(d, arrived[0]), r, rest, arrived[1..], base);
    }
  }

  lemma {:induction false} EncodeReportsSnoc(reports: seq<Report>, o: Report)
    ensures EncodeReports(reports + [o]) == EncodeReports(reports) + EncodeReport(o)
  {
    if reports == [] {
      assert [] + [o] == [o] && [o][1..] == [];
    } else {
      assert (reports + [o])[1..] == reports[1..] + [o];
      EncodeReportsSnoc(reports[1..], o);
      ConcatAssoc(EncodeReport(reports[0]), EncodeReports(reports[1..]), EncodeReport(o));
    }
  }

  /** What the receive queue holds besides the report that is still arriving. */
  function Complete(s: Sys): seq<byte>
    requires ClaimedCount(s) <= |s.reports|
  {
    Held(s) + EncodeReports(s.reports[ClaimedCount(s)..])
  }

  /** A report joins the queue behind those that wait. */
  lemma ReportQueued(s: Sys, t: Sys, o: Report)
    requires RxInv(s) && t.reports == s.reports + [o] && t.sent == s.sent && t.task == s.task
    requires !t.dev.inProgress && |t.dev.rx| <= RX_BUF_SIZE && t.dev.ready == s.dev.ready + 1 && Sized(o)
    requires t.dev.rx == Complete(s) + EncodeReport(o)
    ensures RxInv(t)
  {
    hide EncodeReports;
    var c := ClaimedCount(s);
    assert (s.reports + [o])[c..] == s.reports[c..] + [o];
    EncodeReportsSnoc(s.reports[c..], o);
    ConcatAssoc(Held(s), EncodeReports(s.reports[c..]), EncodeReport(o));
    assert Arriving(t) == [];
  }

  /** A byte of a report arrives, or nothing does. */
  lemma MoreArrives(s: Sys, t: Sys)
    requires RxInv(s) && t.reports == s.reports && t.sent == s.sent && t.task == s.task
    requires t.dev.ready == s.dev.ready && |t.dev.rx| <= RX_BUF_SIZE
    requires t.dev.rx == Complete(s) + Arriving(t)
    ensures RxInv(t)
  {
    hide EncodeReports, Received;
  }

  /** The first interrupt of a packet, as the receive queue sees it. */
  lemma StartEffect(d: Dev, r: Request, rest: seq<byte>)
    requires !d.inProgress && d.inFlight == 0 && d.tx == EncodeRequest(r) + rest && |d.rx| <= RX_BUF_SIZE
    requires CanInterrupt(d, []) && !Interrupt(d, []).overflow
    ensures var e := Interrupt(d, []);
            e.inProgress && e.ready == d.ready && |e.rx| <= RX_BUF_SIZE && e.rx == d.rx + Received(e, r.trim)
  {
    BeginDuring(d, r, rest);
    BeginRx(d, r, rest);
    BeginFrame(d);
    var b := Begin(d);
    assert b.totalRx > 0;
    hide Begin, During, WriteMany, Received, EncodeRequest;
    WriteRest(b, r, rest);
    SameReceived(b, WriteMany(b, ToWrite(b)), r.trim);
  }

  lemma SameReceived(d: Dev, e: Dev, trim: nat)
    requires e.rxSize == d.rxSize && e.dest == d.dest && e.got == d.got
    ensures Received(e, trim) == Received(d, trim)
  {
  }

  lemma StartKeepsRx(s: Sys, arrived: seq<byte>)
    requires TxInv(s) && RxInv(s) && !s.dev.inProgress && s.dev.enabled && |arrived| <= s.dev.inFlight
    requires CanInterrupt(s.dev, arrived) && !IsrStep(s, arrived).dev.overflow
    ensures RxInv(IsrStep(s, arrived))
  {
    var k := |s.packets|;
    EncodeRequestsFirst(s.issued, k);
    hide EncodeRequests, EncodeRequest, EncodeReports, Interrupt, CanInterrupt, Received;
    assert arrived == [];
    StartEffect(s.dev, s.issued[k], EncodeRequests(s.issued[k + 1..]));
    assert s.dev.rx == Complete(s) + [] && Complete(s) + [] == Complete(s);
    MoreArrives(s, IsrStep(s, arrived));
  }

  /** At the end of a packet the bytes in the receive queue make up its report. */
  lemma WholeReport(d: Dev, r: Request, rest: seq<byte>)
    requires During(d, r, rest) && d.totalRx == 0 && WellSized(r)
    ensures Received(d, r.trim) == if ReportOf(r, d.got) == [] then [] else EncodeReport(ReportOf(r, d.got)[0])
    ensures ReportOf(r, d.got) == [] <==> d.rxSize == 0
  {
  }

  /** An interrupt in the middle of a packet, as the receive queue sees it. */
  lemma MoreEffect(d: Dev, r: Request, rest: seq<byte>, arrived: seq<byte>, base: seq<byte>)
    requires During(d, r, rest) && |arrived| <= d.inFlight && WellSized(r) && RxOk(d, r, base)
    requires CanInterrupt(d, arrived) && !Interrupt(d, arrived).overflow
    ensures var e := Interrupt(d, arrived);
            && |e.rx| <= RX_BUF_SIZE
            && if e.inProgress then e.ready == d.ready && e.rx == base + Received(e, r.trim)
               else if ReportOf(r, e.got) == [] then e.ready == d.ready && e.rx == base
               else e.ready == d.ready + 1 && e.rx == base + EncodeReport(ReportOf(r, e.got)[0])
  {
    ReadAllKeeps(d, r, rest, arrived);
    ReadAllRx(d, r, rest, arrived, base);
    var t := ReadAll(d, arrived);
    hide ReadAll, WriteMany, During, ReportOf, Received;
    if t.totalRx == 0 {
      WholeReport(t, r, rest);
      assert base + [] == base;
    } else {
      WriteRest(t, r, rest);
      SameReceived(t, WriteMany(t, ToWrite(t)), r.trim);
    }
  }

  lemma MoreKeepsRx(s: Sys, arrived: seq<byte>)
    requires TxInv(s) && RxInv(s) && s.dev.inProgress && |arrived| <= s.dev.inFlight
    requires CanInterrupt(s.dev, arrived) && !IsrStep(s, arrived).dev.overflow
    ensures RxInv(IsrStep(s, arrived))
  {
    hide EncodeRequests, EncodeReports, During, Received, CanInterrupt, Interrupt, EncodeReport, ReportOf;
    var k, t := |s.packets|, IsrStep(s, arrived);
    var r := s.issued[k];
    assert r in s.issued && Arriving(s) == Received(s.dev, r.trim);
    MoreEffect(s.dev, r, EncodeRequests(s.issued[k + 1..]), arrived, Complete(s));
    if t.dev.inProgress {
      MoreArrives(s, t);
    } else if ReportOf(r, t.dev.got) == [] {
      assert t.reports == s.reports && Complete(s) + [] == Complete(s);
      MoreArrives(s, t);
    } else {
      ReportSized(r, t.dev.got);
      ReportQueued(s, t, ReportOf(r, t.dev.got)[0]);
    }
  }

  lemma ReportSized(r: Request, got: seq<byte>)
    ensures |ReportOf(r, got)| <= 1 && forall o :: o in ReportOf(r, got) ==> Sized(o)
  {
  }

  lemma IsrKeepsRx(s: Sys, arrived: seq<byte>)
    requires TxInv(s) && RxInv(s) && s.dev.enabled && |arrived| <= s.dev.inFlight
    requires CanInterrupt(s.dev, arrived) && !IsrStep(s, arrived).dev.overflow
    ensures RxInv(IsrStep(s, arrived))
  {
    if !s.dev.inProgress { StartKeepsRx(s, arrived); }
    else { MoreKeepsRx(s, arrived); }
  }

  lemma EncodeReportsFirst(reports: seq<Report>, c: nat)
    requires c < |reports|
    ensures EncodeReports(reports[c..]) == EncodeReport(reports[c]) + EncodeReports(reports[c + 1..])
  {
    assert reports[c..][1..] == reports[c + 1..];
  }

  lemma SixSame(n: int)
    requires 0 <= n < 64
    ensures Six(n) == n
  {
  }

  lemma DropHead<T>(a: seq<T>, b: seq<T>)
    ensures (a + b)[|a|..] == b && (a + b)[..|a|] == a
  {
  }

  lemma ArrivingFrame(s: Sys, t: Sys)
    requires t.packets == s.packets && t.issued == s.issued
    requires t.dev == s.dev.(rx := t.dev.rx, ready := t.dev.ready, unreported := t.dev.unreported)
    ensures Arriving(t) == Arriving(s)
  {
  }

  lemma HeadOfQueue(s: Sys)
    requires RxInv(s) && s.task == Loop && s.dev.ready != 0
    ensures |s.sent| < |s.reports|
    ensures var o := s.reports[|s.sent|];
            s.dev.rx == [o.dest] + ([|o.data|] + o.data + EncodeReports(s.reports[|s.sent| + 1..]) + Arriving(s))
  {
    hide Arriving;
    EncodeReportsFirst(s.reports, |s.sent|);
    hide EncodeReports;
  }

  lemma PullDestKeepsRx(s: Sys)
    requires RxInv(s) && s.task == Loop && s.dev.ready != 0
    ensures CanTask(s) && RxInv(TaskStepOf(s))
  {
    HeadOfQueue(s);
    hide EncodeReports, Arriving, EncodeReport, Six;
    var o := s.reports[|s.sent|];
    SixSame(o.dest);
    assert o in s.reports;
    ArrivingFrame(s, TaskStepOf(s));
  }

  lemma PullSizeKeepsRx(s: Sys)
    requires RxInv(s) && s.task.GotDest?
    ensures CanTask(s) && RxInv(TaskStepOf(s))
  {
    hide EncodeReports, Received;
    var c := |s.sent|;
    var o, later := s.reports[c], EncodeReports(s.reports[c + 1..]) + Arriving(s);
    assert Held(s) == [|o.data|] + o.data;
    assert s.dev.rx == [|o.data|] + (o.data + later);
    assert o in s.reports;
    SixSame(|o.data| - 1);
    ArrivingFrame(s, TaskStepOf(s));
  }

  lemma SendKeepsRx(s: Sys)
    requires RxInv(s) && s.task.GotSize?
    ensures CanTask(s) && RxInv(TaskStepOf(s))
  {
    hide EncodeReports, Received;
    var c := |s.sent|;
    var o, later := s.reports[c], EncodeReports(s.reports[c + 1..]) + Arriving(s);
    ConcatAssoc(o.data, EncodeReports(s.reports[ClaimedCount(s)..]), Arriving(s));
    assert s.dev.rx == o.data + later;
    DropHead(o.data, later);
    assert s.reports[..c + 1] == s.reports[..c] + [o];
    ArrivingFrame(s, TaskStepOf(s));
  }

  lemma ReleaseKeepsRx(s: Sys)
    requires RxInv(s) && s.task.Releasing?
    ensures CanTask(s) && RxInv(TaskStepOf(s))
  {
    hide EncodeReports, Received;
    var o, later := s.sent[|s.sent| - 1], EncodeReports(s.reports[|s.sent|..]) + Arriving(s);
    ConcatAssoc(o.data, EncodeReports(s.reports[ClaimedCount(s)..]), Arriving(s));
    assert s.dev.rx == o.data + later;
    DropHead(o.data, later);
    assert [] + EncodeReports(s.reports[|s.sent|..]) == EncodeReports(s.reports[|s.sent|..]);
    ArrivingFrame(s, TaskStepOf(s));
  }

  lemma TaskKeepsRx(s: Sys)
    requires RxInv(s)
    ensures CanTask(s) && RxInv(TaskStepOf(s))
  {
    match s.task
    case Loop =>
      if s.dev.ready != 0 { PullDestKeepsRx(s); } else { RxFrame(s, TaskStepOf(s)); }
    case GotDest(_) => PullSizeKeepsRx(s);
    case GotSize(_, _) => SendKeepsRx(s);
    case Releasing(_) => ReleaseKeepsRx(s);
    case _ => RxFrame(s, TaskStepOf(s));
  }

  /** The invariant of the receive queue does not look at anything else. */
  lemma RxFrame(s: Sys, t: Sys)
    requires RxInv(s) && t.reports == s.reports && t.sent == s.sent
    requires t.dev.rx == s.dev.rx && Held(t) == Held(s) && ClaimedCount(t) == ClaimedCount(s) && Arriving(t) == Arriving(s)
    requires t.task == s.task || (!t.task.GotDest? && !t.task.GotSize? && !t.task.Releasing? && !t.task.Released?)
    requires t.dev.ready - (if t.task.Releasing? || t.task.Released? then 1 else 0)
          == s.dev.ready - if s.task.Releasing? || s.task.Released? then 1 else 0
    ensures RxInv(t)
  {
    hide EncodeReports, Received, Held, Arriving;
  }

  // ---------------------------------------------------- credit and the other steps

  lemma {:induction false} TotalCostSnoc(requests: seq<Request>, r: Request)
    ensures TotalCost(requests + [r]) == TotalCost(requests) + RequestCost(r)
  {
    if requests == [] {
      assert [r][1..] == [] && [] + [r] == [r];
    } else {
      assert (requests + [r])[1..] == requests[1..] + [r];
      TotalCostSnoc(requests[1..], r);
    }
  }

  lemma {:induction false} WriteManyConserves(d: Dev, n: nat)
    requires CanWrite(d, n)
    ensures var e := WriteMany(d, n);
            |e.tx| + e.unreported == |d.tx| + d.unreported && e.unreported >= d.unreported
    decreases n
  {
    if n > 0 { WriteManyConserves(WriteByte(d), n - 1); }
  }

  lemma {:induction false} ReadAllConserves(d: Dev, arrived: seq<byte>)
    ensures var e := ReadAll(d, arrived); e.tx == d.tx && e.unreported == d.unreported
    decreases |arrived|
  {
    if arrived != [] { ReadAllConserves(ReadByte(d, arrived[0]), arrived[1..]); }
  }

  /** Whatever the handler takes out of the queue it counts as transmitted. */
  lemma IsrConserves(d: Dev, arrived: seq<byte>)
    requires CanInterrupt(d, arrived)
    ensures var e := Interrupt(d, arrived);
            |e.tx| + e.unreported == |d.tx| + d.unreported && e.unreported >= d.unreported
  {
    hide WriteMany, ReadAll;
    if !d.inProgress {
      WriteManyConserves(Begin(d), ToWrite(Begin(d)));
    } else {
      ReadAllConserves(d, arrived);
      var t := ReadAll(d, arrived);
      if t.totalRx != 0 { WriteManyConserves(t, ToWrite(t)); }
    }
  }

  lemma IsrKeepsCredit(s: Sys, arrived: seq<byte>)
    requires CreditInv(s) && CanInterrupt(s.dev, arrived)
    ensures CreditInv(IsrStep(s, arrived))
  {
    IsrConserves(s.dev, arrived);
    hide TotalCost, Total, Interrupt, CanInterrupt;
  }

  lemma TaskKeepsCredit(s: Sys)
    requires CreditInv(s) && CanTask(s)
    ensures CreditInv(TaskStepOf(s))
  {
    hide TotalCost, Six;
    if s.task.Reporting? {
      TotalSnoc(s.toHost, s.dev.unreported);
    } else {
      hide Total;
    }
  }

  lemma PushAll(d: Dev, r: Request)
    requires |d.tx| + RequestCost(r) <= TX_BUF_SIZE
    ensures Transmit(d, r) == d.(tx := d.tx + EncodeRequest(r), enabled := true)
  {
    assert d.tx + [r.dest] + [r.total] + [|r.data|] + [r.trim] == d.tx + Header(r);
    ConcatAssoc(d.tx, Header(r), r.data);
    assert r.data == [] ==> d.tx + Header(r) + r.data == d.tx + Header(r);
  }

  /** A request that the host had the credit for always fits the transmit queue. */
  lemma DeliverFits(s: Sys)
    requires CreditInv(s) && s.toDevice != [] && s.task == Loop
    ensures var r := s.toDevice[0];
            && Transmit(s.dev, r) == s.dev.(tx := s.dev.tx + EncodeRequest(r), enabled := true)
            && WellSized(r) && CreditInv(Step(s, Deliver))
  {
    var r := s.toDevice[0];
    assert r in s.toDevice;
    assert |s.dev.tx| + RequestCost(r) <= TX_BUF_SIZE;
    PushAll(s.dev, r);
    hide Transmit;
  }

  lemma DuringMore(d: Dev, e: Dev, r: Request, rest: seq<byte>, more: seq<byte>)
    requires During(d, r, rest) && e == d.(tx := d.tx + more, enabled := e.enabled)
    ensures During(e, r, rest + more)
  {
    ConcatAssoc(r.data[Min(|d.out|, |r.data|)..], rest, more);
  }

  lemma DeliverKeepsTx(s: Sys)
    requires TxInv(s) && CreditInv(s) && s.toDevice != [] && s.task == Loop
    ensures TxInv(Step(s, Deliver))
  {
    DeliverFits(s);
    hide EncodeRequests, EncodeRequest, During, Transmit, TotalCost, Total;
    var k, r, t := |s.packets|, s.toDevice[0], Step(s, Deliver);
    if !s.dev.inProgress {
      assert t.issued[k..] == s.issued[k..] + [r];
      EncodeRequestsSnoc(s.issued[k..], r);
    } else {
      assert t.issued[k] == s.issued[k] && t.issued[k + 1..] == s.issued[k + 1..] + [r];
      EncodeRequestsSnoc(s.issued[k + 1..], r);
      DuringMore(s.dev, t.dev, s.issued[k], EncodeRequests(s.issued[k + 1..]), EncodeRequest(r));
    }
  }

  lemma DeliverKeepsInv(s: Sys)
    requires Inv(s) && s.toDevice != [] && s.task == Loop
    ensures Inv(Step(s, Deliver)) && !(!s.dev.overflow && Step(s, Deliver).dev.overflow)
  {
    DeliverFits(s);
    DeliverKeepsTx(s);
    assert Arriving(Step(s, Deliver)) == Arriving(s);
    hide TxInv, RxInv, Transmit, TotalCost, Total, Fits, Reports, Arriving;
    RxFrame(s, Step(s, Deliver));
  }

  lemma TxFrame(s: Sys, t: Sys)
    requires TxInv(s) && t.packets == s.packets && t.issued == s.issued
    requires t.dev == s.dev.(rx := t.dev.rx, ready := t.dev.ready, unreported := t.dev.unreported)
    ensures TxInv(t)
  {
    hide EncodeRequests, Padded;
  }

  lemma HostKeepsCredit(s: Sys, e: Event)
    requires CreditInv(s) && Enabled(s, e) && (e.HostSends? || e.HostReceives?)
    ensures CreditInv(Step(s, e))
  {
    if e.HostSends? {
      TotalCostSnoc(s.toDevice, e.request);
    }
  }

  lemma HostKeepsInv(s: Sys, e: Event)
    requires Inv(s) && Enabled(s, e) && (e.HostSends? || e.HostReceives?)
    ensures Inv(Step(s, e))
  {
    hide TxInv, RxInv, Fits, CreditInv, Reports;
    TxFrame(s, Step(s, e));
    RxFrame(s, Step(s, e));
    HostKeepsCredit(s, e);
  }

  lemma TaskKeepsInv(s: Sys)
    requires Inv(s)
    ensures CanTask(s) && Inv(TaskStepOf(s))
  {
    hide TxInv, RxInv, Fits, CreditInv, Reports, Six;
    TaskKeepsRx(s);
    TxFrame(s, TaskStepOf(s));
    TaskKeepsCredit(s);
  }

  lemma IsrKeepsInv(s: Sys, arrived: seq<byte>)
    requires Inv(s) && s.dev.enabled && |arrived| <= s.dev.inFlight
    ensures CanInterrupt(s.dev, arrived)
    ensures !IsrStep(s, arrived).dev.overflow ==> Inv(IsrStep(s, arrived))
  {
    hide TxInv, RxInv, CreditInv, PacketsInv, Interrupt, CanInterrupt;
    IsrKeepsTx(s, arrived);
    IsrKeepsPackets(s, arrived);
    IsrKeepsCredit(s, arrived);
    if !IsrStep(s, arrived).dev.overflow { IsrKeepsRx(s, arrived); }
  }

  lemma StepKeepsInv(s: Sys, e: Event)
    requires Inv(s) && Enabled(s, e)
    ensures CanStep(s, e)
    ensures !Step(s, e).dev.overflow ==> Inv(Step(s, e))
  {
    hide Inv, IsrStep, TaskStepOf, CanInterrupt, CanTask;
    match e
    case Deliver => DeliverKeepsInv(s);
    case Isr(arrived) => IsrKeepsInv(s, arrived);
    case TaskStep => TaskKeepsInv(s);
    case _ => HostKeepsInv(s, e);
  }

  // --------------------------------------------------------------- whole runs

  /** One step of a run; nothing happens if the step is not possible. */
  function Next(s: Sys, e: Event): Sys {
    if Enabled(s, e) && CanStep(s, e) then Step(s, e) else s
  }

  function Run(s: Sys, events: seq<Event>): Sys
    decreases |events|
  {
    if events == [] then s else Run(Next(s, events[0]), events[1..])
  }

  /** The host spends only credit it has and no received byte is dropped for want of room. */
  predicate Legal(s: Sys, events: seq<Event>)
    decreases |events|
  {
    events == [] || (Enabled(s, events[0]) && !Next(s, events[0]).dev.overflow && Legal(Next(s, events[0]), events[1..]))
  }

  lemma {:induction false} RunKeepsInv(s: Sys, events: seq<Event>)
    requires Inv(s) && Legal(s, events)
    ensures Inv(Run(s, events))
    decreases |events|
  {
    if events != [] {
      StepKeepsInv(s, events[0]);
      hide Inv, Step, Enabled;
      RunKeepsInv(Next(s, events[0]), events[1..]);
    }
  }

  lemma ConfiguredInv()
    ensures Inv(Configured())
  {
    var c := Configured();
    assert c.issued[0..] == [] && c.reports[0..] == [] && c.reports[..0] == [];
  }

  lemma InvSays(s: Sys)
    requires Inv(s)
    ensures |s.packets| <= |s.issued|
    ensures forall i :: 0 <= i < |s.packets| ==> Fits(s.issued[i], s.packets[i])
    ensures s.sent <= s.reports == Reports(s.packets)
    ensures s.dev.inProgress ==> 0 < s.dev.inFlight <= FIFO_SIZE
    ensures s.dev.inProgress ==> s.dev.canSend as int + (s.dev.totalRx as int - s.dev.totalTx as int) == FIFO_SIZE
    ensures !s.dev.inProgress ==> s.dev.inFlight == 0 && s.dev.tx == EncodeRequests(s.issued[|s.packets|..])
    ensures |s.packets| < |s.issued| ==> s.dev.enabled
    ensures s.credit + TotalCost(s.toDevice) + |s.dev.tx| + s.dev.unreported + Total(s.toHost) == TX_BUF_SIZE
  {
    hide EncodeRequests, EncodeReports, Padded, Received, Held, Reports, TotalCost, Total;
  }

  lemma RunsAreSafe(events: seq<Event>)
    requires Legal(Configured(), events)
    ensures var s := Run(Configured(), events); Inv(s) && forall e :: Enabled(s, e) ==> CanStep(s, e)
  {
    ConfiguredInv();
    RunKeepsInv(Configured(), events);
    var s := Run(Configured(), events);
    hide *;
    forall e | Enabled(s, e) ensures CanStep(s, e) {
      StepKeepsInv(s, e);
    }
  }

  /**
   In every run in which the host spends only its credit and what comes in fits the
   receive queue, however the bytes arrive: every finished packet shifted out its
   data and then 0xFF up to its size; the host gets the reports of the packets in
   order, each with exactly what came in after the trimmed bytes; at most eight
   bytes are in flight, at least one while a packet is under way; and every byte of
   the transmit buffer is accounted for.
   */
  lemma SpiRuns(events: seq<Event>)
    requires Legal(Configured(), events)
    ensures var s := Run(Configured(), events);
            && |s.packets| <= |s.issued|
            && (forall i :: 0 <= i < |s.packets| ==> Fits(s.issued[i], s.packets[i]))
            && s.sent <= s.reports == Reports(s.packets)
            && (s.dev.inProgress ==>
                  && 0 < s.dev.inFlight <= FIFO_SIZE
                  && s.dev.canSend as int + (s.dev.totalRx as int - s.dev.totalTx as int) == FIFO_SIZE)
            && (!s.dev.inProgress ==> s.dev.inFlight == 0 && s.dev.tx == EncodeRequests(s.issued[|s.packets|..]))
            && (|s.packets| < |s.issued| ==> s.dev.enabled)
            && s.credit + TotalCost(s.toDevice) + |s.dev.tx| + s.dev.unreported + Total(s.toHost) == TX_BUF_SIZE
  {
    RunsAreSafe(events);
    InvSays(Run(Configured(), events));
    hide *;
  }

  // ------------------------------------------------------------- ill-sized requests

  /** A packet ends at the next request's header exactly when it had room for its data. */
  lemma EndsAtHeader(d: Dev, r: Request, rest: seq<byte>)
    requires During(d, r, rest) && d.totalRx == 0
    ensures d.tx == rest <==> |r.data| <= r.total
  {
    PacketDone(d, r, rest);
  }

  /** The size put before a report is the number of bytes behind it exactly when there is not too much to trim. */
  lemma SizeIsRight(d: Dev, r: Request, rest: seq<byte>)
    requires During(d, r, rest) && d.totalRx == 0
    ensures d.rxSize as nat == |d.got| - Min(r.trim, |d.got|) <==> r.trim as nat <= r.total
  {
  }
}
