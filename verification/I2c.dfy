/**
 The I2C master (app_layer_v1/i2c.c): requests wait in a transmit queue, an
 interrupt handler drives the bus one event at a time, results wait in a receive
 queue, and the main loop passes them on. Section 3.1.11 of NXP UM10204 wants the
 second byte of a ten-bit address on the bus before anything is read; see
 TenBitReads for the requests that the handler serves without it.

 The queues are sequences of bytes here; module ByteQueue proves the ring buffer
 behind them, and module I2cModule ties the two together.
 */
module I2c {
  import opened Bytes
  import opened Credit

  const RX_BUF_SIZE := 128
  const TX_BUF_SIZE := 256

  datatype Header = Header(addr1: byte, addr2: byte, writeSize: byte, readSize: byte)

  datatype MessageState =
    | Start | Addr1Write | Addr2Write | WriteData | StopWriteOnly
    | Restart | AddrRead | AckAddrRead | ReadData | AckReadData

  /** What happens on the bus, in order. */
  datatype Bus = SendStart | Tx(b: byte) | SendRestart | Receive | Rx(b: byte) | SendAck | SendNack | SendStop

  /**
   The fields of I2C_STATE. `enabled` is the interrupt enable bit, `bus` the
   record of the current transaction, `overflow` whether a push was ever dropped.
   */
  datatype Dev = Dev(
    state: MessageState, header: Header, unreported: int, remaining: int,
    rx: seq<byte>, ready: int, tx: seq<byte>, enabled: bool, overflow: bool, bus: seq<Bus>)

  function PushRx(s: Dev, b: byte): Dev {
    if |s.rx| == RX_BUF_SIZE then s.(overflow := true) else s.(rx := s.rx + [b])
  }

  function PushTx(s: Dev, data: seq<byte>): Dev {
    if |s.tx| + |data| > TX_BUF_SIZE && data != [] then s.(overflow := true) else s.(tx := s.tx + data)
  }

  function ReadAddress(addr1: byte): byte {
    if addr1 % 2 == 0 then addr1 + 1 else addr1
  }

  /** The first five bits that mark a ten-bit address. */
  predicate TenBit(addr1: byte) {
    addr1 / 8 == 0x1E
  }

  /** The assertions of the queue operations that the handler calls. */
  predicate CanInterrupt(s: Dev, nack: bool) {
    match s.state
    case Start => |s.tx| >= 4
    case WriteData => if nack then 0 <= s.remaining <= |s.tx| else s.tx != []
    case Addr2Write => nack ==> 0 <= s.remaining <= |s.tx|
    case StopWriteOnly => nack ==> 0 <= s.remaining <= |s.tx|
    case AckAddrRead => nack ==> 0 <= s.remaining <= |s.tx|
    case _ => true
  }

  /** The common end of a transaction: one more result, a stop bit, and the next one if there is any. */
  function Done(s: Dev): Dev {
    s.(ready := s.ready + 1, bus := s.bus + [SendStop], state := Start, enabled := |s.tx| > 0)
  }

  /** A missing acknowledgement: the rest of the request is dropped and counted as transmitted. */
  function Fail(s: Dev): Dev
    requires 0 <= s.remaining <= |s.tx|
  {
    Done(PushRx(s.(tx := s.tx[s.remaining..], unreported := s.unreported + s.remaining), 0xFF))
  }

  /** The interrupt handler; `nack` is the acknowledge status, `received` the receive register. */
  function Interrupt(s: Dev, nack: bool, received: byte): Dev
    requires CanInterrupt(s, nack)
  {
    match s.state
    case Start =>
      var h := Header(s.tx[0], s.tx[1], s.tx[2], s.tx[3]);
      s.(header := h, tx := s.tx[4..], unreported := s.unreported + 4, remaining := h.writeSize,
         bus := [SendStart], state := if h.writeSize != 0 then Addr1Write else AddrRead)
    case Addr1Write =>
      s.(bus := s.bus + [Tx(s.header.addr1)], state := if TenBit(s.header.addr1) then Addr2Write else WriteData)
    case Addr2Write =>
      if nack then Fail(s) else s.(bus := s.bus + [Tx(s.header.addr2)], state := WriteData)
    case WriteData =>
      if nack then Fail(s)
      else
        var left := s.remaining - 1;
        s.(bus := s.bus + [Tx(s.tx[0])], tx := s.tx[1..], unreported := s.unreported + 1, remaining := left,
           state := if left != 0 then WriteData else if s.header.readSize != 0 then Restart else StopWriteOnly)
    case StopWriteOnly => if nack then Fail(s) else Done(PushRx(s, 0))
    case Restart => s.(bus := s.bus + [SendRestart], state := AddrRead)
    case AddrRead => s.(bus := s.bus + [Tx(ReadAddress(s.header.addr1))], state := AckAddrRead)
    case AckAddrRead =>
      if nack then Fail(s)
      else
        PushRx(s.(remaining := s.header.readSize, bus := s.bus + [Receive], state := ReadData), s.header.readSize)
    case ReadData =>
      PushRx(s.(bus := s.bus + [Rx(received), if s.remaining == 1 then SendNack else SendAck], state := AckReadData),
             received)
    case AckReadData =>
      if s.remaining - 1 == 0 then Done(s.(remaining := 0))
      else s.(remaining := s.remaining - 1, bus := s.bus + [Receive], state := ReadData)
  }

  // --------------------------------------------------------------- the system

  type Payload = s: seq<byte> | |s| < 0x100

  datatype Request = Request(addr1: byte, addr2: byte, data: Payload, readSize: byte)

  function EncodeRequest(r: Request): (e: seq<byte>)
    ensures |e| == 4 + |r.data|
  {
    [r.addr1, r.addr2, |r.data|, r.readSize] + r.data
  }

  /** How a request ended. */
  datatype Outcome = Failed | Written | Read(data: Payload)

  /** An outcome as the handler puts it in the receive queue. */
  function EncodeOutcome(o: Outcome): seq<byte> {
    match o
    case Failed => [0xFF]
    case Written => [0]
    case Read(data) => [|data|] + data
  }

  /** The main loop inside I2CTasks, between two steps that an interrupt can separate. */
  datatype Task =
    | Loop                       // before the test of the number of results
    | GotSize(n: byte)           // the size byte has been pulled
    | Claimed(n: byte)           // the number of results has been decremented
    | Releasing(length: nat)     // the message has been sent, the data not yet pulled
    | CheckReport                // before the test of the number of unreported bytes
    | Reporting                  // the test has succeeded

  /**
   The module with the host at the other end of the connection. `issued`,
   `outcomes`, `transcripts` and `partial` are a record that no step reads: the
   requests handed to the module, how each of them ended, what it did on the bus,
   and the bytes read so far by the current one.
   */
  datatype Sys = Sys(
    dev: Dev, task: Task, credit: int, toDevice: seq<Request>, toHost: seq<nat>, sent: seq<Outcome>,
    issued: seq<Request>, outcomes: seq<Outcome>, transcripts: seq<seq<Bus>>, partial: Payload)

  datatype Event =
    | HostSends(request: Request)
    | HostReceives
    | Deliver                             // I2CWriteRead
    | Isr(nack: bool, received: byte)
    | TaskStep

  function RequestCost(r: Request): nat {
    4 + |r.data|
  }

  predicate Enabled(s: Sys, e: Event) {
    match e
    case HostSends(r) => s.credit >= RequestCost(r) && |r.data| + r.readSize as nat > 0
    case HostReceives => s.toHost != []
    case Deliver => s.task == Loop && s.toDevice != []
    case Isr(_, _) => s.dev.enabled
    case TaskStep => true
  }

  /** I2CWriteRead: two pushes with interrupts off. */
  function WriteRead(d: Dev, r: Request): Dev {
    PushTx(PushTx(d, [r.addr1, r.addr2, |r.data|, r.readSize]), r.data).(enabled := true)
  }

  /** Whether an interrupt ends the transaction, and how. */
  function Ends(d: Dev, nack: bool): Option<bool> {
    match d.state
    case Addr2Write => if nack then Some(false) else None
    case WriteData => if nack then Some(false) else None
    case StopWriteOnly => Some(!nack)
    case AckAddrRead => if nack then Some(false) else None
    case AckReadData => if d.remaining == 1 then Some(true) else None
    case _ => None
  }

  function IsrStep(s: Sys, nack: bool, received: byte): Sys
    requires CanInterrupt(s.dev, nack)
  {
    var d := Interrupt(s.dev, nack, received);
    match Ends(s.dev, nack)
    case None =>
      s.(dev := d, partial := if s.dev.state == ReadData && |s.partial| < 0xFF then s.partial + [received] else s.partial)
    case Some(ok) =>
      var o := if !ok then Failed else if s.dev.state == StopWriteOnly then Written else Read(s.partial);
      s.(dev := d, outcomes := s.outcomes + [o], transcripts := s.transcripts + [d.bus], partial := [])
  }

  /** The assertions of the queue operations that I2CTasks calls. */
  predicate CanTask(s: Sys) {
    match s.task
    case Loop => s.dev.ready != 0 ==> s.dev.rx != []
    case Claimed(n) => n == 0xFF || n as nat <= |s.dev.rx|
    case Releasing(n) => n <= |s.dev.rx|
    case _ => true
  }

  function TaskStepOf(s: Sys): Sys
    requires CanTask(s)
  {
    match s.task
    case Loop =>
      if s.dev.ready == 0 then s.(task := CheckReport)
      else s.(task := GotSize(s.dev.rx[0]), dev := s.dev.(rx := s.dev.rx[1..]))
    case GotSize(n) => s.(task := Claimed(n), dev := s.dev.(ready := s.dev.ready - 1))
    case Claimed(n) =>
      if n == 0xFF then s.(task := Loop, sent := s.sent + [Failed])
      else if n == 0 then s.(task := Loop, sent := s.sent + [Written])
      else s.(task := Releasing(n), sent := s.sent + [Read(s.dev.rx[..n])])
    case Releasing(n) => s.(task := Loop, dev := s.dev.(rx := s.dev.rx[n..]))
    case CheckReport => s.(task := if s.dev.unreported > TX_BUF_SIZE / 2 then Reporting else Loop)
    case Reporting =>
      s.(task := Loop, dev := s.dev.(unreported := 0),
         toHost := s.toHost + [if s.dev.unreported >= 0 then s.dev.unreported else 0])
  }

  predicate CanStep(s: Sys, e: Event) {
    match e
    case Isr(nack, _) => CanInterrupt(s.dev, nack)
    case TaskStep => CanTask(s)
    case _ => true
  }

  function Step(s: Sys, e: Event): Sys
    requires Enabled(s, e) && CanStep(s, e)
  {
    match e
    case HostSends(r) => s.(credit := s.credit - RequestCost(r), toDevice := s.toDevice + [r])
    case HostReceives => s.(credit := s.credit + s.toHost[0], toHost := s.toHost[1..])
    case Deliver =>
      s.(toDevice := s.toDevice[1..], dev := WriteRead(s.dev, s.toDevice[0]), issued := s.issued + [s.toDevice[0]])
    case Isr(nack, received) => IsrStep(s, nack, received)
    case TaskStep => TaskStepOf(s)
  }

  /** After I2CConfigMaster: empty queues, and the whole transmit buffer unreported. */
  function Configured(): Sys {
    Sys(Dev(Start, Header(0, 0, 0, 0), TX_BUF_SIZE, 0, [], 0, [], false, false, []),
        Loop, 0, [], [], [], [], [], [], [])
  }

  // --------------------------------------------------- transactions on the bus

  function Txs(data: seq<byte>): seq<Bus> {
    seq(|data|, i requires 0 <= i < |data| => Tx(data[i]))
  }

  function Addressing(r: Request): seq<Bus> {
    [SendStart, Tx(r.addr1)] + if TenBit(r.addr1) then [Tx(r.addr2)] else []
  }

  /** Everything before the read address: nothing but a start bit when there is nothing to write. */
  function WritePart(r: Request): seq<Bus> {
    if r.data == [] then [SendStart]
    else Addressing(r) + Txs(r.data) + if r.readSize != 0 then [SendRestart] else []
  }

  /** Bytes read one after the other, all acknowledged but the last of `total`. */
  function Reads(bytes: seq<byte>, total: nat): seq<Bus> {
    if bytes == [] then []
    else
      var n := |bytes| - 1;
      Reads(bytes[..n], total) + [Receive, Rx(bytes[n]), if n + 1 == total then SendNack else SendAck]
  }

  function ReadPart(r: Request): seq<Bus> {
    if r.readSize == 0 then [] else [Tx(ReadAddress(r.addr1))]
  }

  /** The bus during a request that succeeds and reads `bytes`. */
  function Transcript(r: Request, bytes: seq<byte>): seq<Bus> {
    WritePart(r) + ReadPart(r) + Reads(bytes, r.readSize) + [SendStop]
  }

  /** A request that fails stops right after a byte that was not acknowledged. */
  predicate StoppedShort(r: Request, bus: seq<Bus>) {
    && |bus| >= 2 && bus[|bus| - 1] == SendStop && bus[|bus| - 2].Tx?
    && bus[..|bus| - 1] <= WritePart(r) + ReadPart(r)
  }

  /** The outcome and the bus transcript are right for the request. */
  predicate Fits(r: Request, o: Outcome, bus: seq<Bus>) {
    match o
    case Failed => StoppedShort(r, bus)
    case Written => r.readSize == 0 && bus == Transcript(r, [])
    case Read(data) => 0 < |data| == r.readSize as nat && bus == Transcript(r, data)
  }

  /** The device in the middle of a request, having read `partial` so far; what is left of it in the queue. */
  predicate During(d: Dev, r: Request, partial: seq<byte>) {
    var sent := |r.data| - d.remaining;
    && d.header == Header(r.addr1, r.addr2, |r.data|, r.readSize)
    && (partial == [] || Reading(d))
    && match d.state
       case Start => false
       case Addr1Write => r.data != [] && sent == 0 && d.bus == [SendStart]
       case Addr2Write => r.data != [] && TenBit(r.addr1) && sent == 0 && d.bus == [SendStart, Tx(r.addr1)]
       case WriteData => 0 <= sent < |r.data| && d.bus == Addressing(r) + Txs(r.data[..sent])
       case StopWriteOnly => r.data != [] && d.remaining == 0 && r.readSize == 0 && d.bus == WritePart(r)
       case Restart => r.data != [] && d.remaining == 0 && r.readSize != 0 && d.bus + [SendRestart] == WritePart(r)
       case AddrRead => d.remaining == 0 && r.readSize != 0 && d.bus == WritePart(r)
       case AckAddrRead => d.remaining == 0 && r.readSize != 0 && d.bus == WritePart(r) + ReadPart(r)
       case ReadData =>
         && d.remaining == r.readSize as int - |partial| > 0
         && d.bus == WritePart(r) + ReadPart(r) + Reads(partial, r.readSize) + [Receive]
       case AckReadData =>
         && partial != [] && d.remaining - 1 == r.readSize as int - |partial| >= 0
         && d.bus == WritePart(r) + ReadPart(r) + Reads(partial, r.readSize)
  }

  predicate Reading(d: Dev) {
    d.state == ReadData || d.state == AckReadData
  }

  /** The data bytes of the current request that are still in the transmit queue. */
  function Unsent(d: Dev, r: Request): seq<byte> {
    if d.state != Start && !Reading(d) && 0 <= d.remaining <= |r.data| then r.data[|r.data| - d.remaining..] else []
  }

  function EncodeRequests(requests: seq<Request>): seq<byte> {
    if requests == [] then [] else EncodeRequest(requests[0]) + EncodeRequests(requests[1..])
  }

  // ------------------------------------------------------------ the invariant

  function EncodeOutcomes(outcomes: seq<Outcome>): seq<byte> {
    if outcomes == [] then [] else EncodeOutcome(outcomes[0]) + EncodeOutcomes(outcomes[1..])
  }

  /** Outcomes whose size byte the main loop has pulled. */
  function ClaimedCount(s: Sys): nat {
    |s.sent| + if s.task.GotSize? || s.task.Claimed? then 1 else 0
  }

  /** Data bytes at the head of the receive queue that belong to an outcome already claimed. */
  function Held(s: Sys): seq<byte> {
    var i := if s.task.GotSize? || s.task.Claimed? then |s.sent|
             else if s.task.Releasing? then |s.sent| - 1 else -1;
    if 0 <= i < |s.outcomes| && s.outcomes[i].Read? then s.outcomes[i].data else []
  }

  /** What the current request has put in the receive queue so far. */
  function InProgress(s: Sys): seq<byte> {
    if Reading(s.dev) then [s.dev.header.readSize] + s.partial else []
  }

  function SizeByte(o: Outcome): byte {
    match o case Failed => 0xFF case Written => 0 case Read(data) => |data|
  }

  /** The main loop's position agrees with the outcome it is handling. */
  predicate TaskOk(s: Sys) {
    match s.task
    case GotSize(n) => |s.sent| < |s.outcomes| && n == SizeByte(s.outcomes[|s.sent|])
    case Claimed(n) => |s.sent| < |s.outcomes| && n == SizeByte(s.outcomes[|s.sent|])
    case Releasing(n) => 0 < |s.sent| <= |s.outcomes| && s.sent[|s.sent| - 1].Read? && n == |s.sent[|s.sent| - 1].data|
    case _ => true
  }

  ghost predicate TxInv(s: Sys) {
    var k := |s.outcomes|;
    && k <= |s.issued|
    && (forall r :: r in s.issued ==> |r.data| + r.readSize as nat > 0)
    && if s.dev.state == Start then
         && s.partial == []
         && s.dev.tx == EncodeRequests(s.issued[k..])
         && (s.dev.enabled <==> k < |s.issued|)
       else
         && k < |s.issued| && s.dev.enabled
         && During(s.dev, s.issued[k], s.partial)
         && s.dev.tx == Unsent(s.dev, s.issued[k]) + EncodeRequests(s.issued[k + 1..])
  }

  ghost predicate RxInv(s: Sys) {
    && (forall o :: o in s.outcomes && o.Read? ==> 0 < |o.data| < 0xFF)
    && ClaimedCount(s) <= |s.outcomes| && s.sent == s.outcomes[..|s.sent|]
    && TaskOk(s)
    && |s.dev.rx| <= RX_BUF_SIZE
    && s.dev.rx == Held(s) + EncodeOutcomes(s.outcomes[ClaimedCount(s)..]) + InProgress(s)
    && s.dev.ready == |s.outcomes| - ClaimedCount(s) + if s.task.GotSize? then 1 else 0
  }

  ghost predicate OutcomesInv(s: Sys) {
    && |s.transcripts| == |s.outcomes| <= |s.issued|
    && forall i :: 0 <= i < |s.outcomes| ==> Fits(s.issued[i], s.outcomes[i], s.transcripts[i])
  }

  function TotalCost(requests: seq<Request>): nat {
    if requests == [] then 0 else RequestCost(requests[0]) + TotalCost(requests[1..])
  }

  /** Every byte of the transmit buffer is accounted for exactly once. */
  predicate CreditInv(s: Sys) {
    && s.credit >= 0 && s.dev.unreported >= 0
    && s.credit + TotalCost(s.toDevice) + |s.dev.tx| + s.dev.unreported + Total(s.toHost) == TX_BUF_SIZE
    && (forall r :: r in s.toDevice ==> |r.data| + r.readSize as nat > 0)
  }

  ghost predicate Inv(s: Sys) {
    TxInv(s) && RxInv(s) && OutcomesInv(s) && CreditInv(s)
  }

  // ----------------------------------------- interrupts and the transmit queue

  lemma EncodeRequestsFirst(requests: seq<Request>, k: nat)
    requires k < |requests|
    ensures EncodeRequests(requests[k..]) == EncodeRequest(requests[k]) + EncodeRequests(requests[k + 1..])
  {
    assert requests[k..][1..] == requests[k + 1..];
  }

  lemma {:induction false} EncodeRequestsSnoc(requests: seq<Request>, r: Request)
    ensures EncodeRequests(requests + [r]) == EncodeRequests(requests) + EncodeRequest(r)
  {
    if requests == [] {
      assert [r][1..] == [] && [] + [r] == [r];
    } else {
      assert (requests + [r])[1..] == requests[1..] + [r];
      EncodeRequestsSnoc(requests[1..], r);
      ConcatAssoc(EncodeRequest(requests[0]), EncodeRequests(requests[1..]), EncodeRequest(r));
    }
  }

  /** The header of the next request is at the head of the queue. */
  lemma StartKeepsTx(s: Sys, nack: bool, received: byte)
    requires TxInv(s) && s.dev.state == Start && s.dev.enabled
    ensures CanInterrupt(s.dev, nack) && TxInv(IsrStep(s, nack, received))
  {
    hide EncodeRequests, Addressing, Txs, ReadPart, Reads;
    var k := |s.outcomes|;
    var r, rest := s.issued[k], EncodeRequests(s.issued[k + 1..]);
    EncodeRequestsFirst(s.issued, k);
    assert r in s.issued;
    assert s.dev.tx == [r.addr1, r.addr2, |r.data|, r.readSize] + (r.data + rest);
    assert s.dev.tx[4..] == r.data + rest;
    assert r.data[0..] == r.data;
  }

  lemma WriteDuring(d: Dev, r: Request, received: byte)
    requires During(d, r, []) && d.state == WriteData && d.tx != [] && d.tx[0] == r.data[|r.data| - d.remaining]
    ensures var e := Interrupt(d, false, received); During(e, r, []) && !Reading(e) && e.state != Start
  {
    hide Addressing;
    var sent := |r.data| - d.remaining;
    assert Txs(r.data[..sent]) + [Tx(r.data[sent])] == Txs(r.data[..sent + 1]);
    ConcatAssoc(Addressing(r), Txs(r.data[..sent]), [Tx(r.data[sent])]);
    if sent + 1 == |r.data| {
      assert r.data[..sent + 1] == r.data;
      ConcatAssoc(Addressing(r), Txs(r.data), if r.readSize != 0 then [SendRestart] else []);
    }
  }

  lemma WriteKeepsTx(s: Sys, received: byte)
    requires TxInv(s) && s.dev.state == WriteData
    ensures CanInterrupt(s.dev, false) && TxInv(IsrStep(s, false, received))
  {
    hide EncodeRequests, Addressing, Txs, WritePart, ReadPart, Reads;
    var k := |s.outcomes|;
    var r, rest := s.issued[k], EncodeRequests(s.issued[k + 1..]);
    var sent := |r.data| - s.dev.remaining;
    assert r.data[sent..] == [r.data[sent]] + r.data[sent + 1..];
    assert s.dev.tx[1..] == r.data[sent + 1..] + rest;
    WriteDuring(s.dev, r, received);
  }

  /** A failed request leaves exactly the requests behind it in the queue. */
  lemma FailKeepsTx(s: Sys, received: byte)
    requires TxInv(s) && Ends(s.dev, true) == Some(false)
    ensures CanInterrupt(s.dev, true) && TxInv(IsrStep(s, true, received))
    ensures IsrStep(s, true, received).dev.tx == EncodeRequests(s.issued[|s.outcomes| + 1..])
  {
    var k := |s.outcomes|;
    var r, rest := s.issued[k], EncodeRequests(s.issued[k + 1..]);
    assert |Unsent(s.dev, r)| == s.dev.remaining;
    assert (Unsent(s.dev, r) + rest)[s.dev.remaining..] == rest;
    assert s.issued[k + 1..] == [] ==> rest == [];
  }

  lemma NothingToEncode(requests: seq<Request>)
    ensures EncodeRequests(requests) == [] <==> requests == []
  {
  }

  lemma DoneKeepsTx(s: Sys, nack: bool, received: byte)
    requires TxInv(s) && Ends(s.dev, nack) == Some(true)
    ensures CanInterrupt(s.dev, nack) && TxInv(IsrStep(s, nack, received))
  {
    hide EncodeRequests, WritePart, ReadPart, Reads, Txs, Addressing;
    var k := |s.outcomes|;
    NothingToEncode(s.issued[k + 1..]);
    var r, rest := s.issued[k], EncodeRequests(s.issued[k + 1..]);
    assert Unsent(s.dev, r) == [];
    assert [] + rest == rest;
    assert s.issued[k + 1..] == [] || k + 1 < |s.issued|;
  }

  lemma AddressDuring(d: Dev, r: Request, nack: bool, received: byte)
    requires During(d, r, []) && Ends(d, nack) == None
    requires d.state in {Addr1Write, Addr2Write, Restart, AddrRead}
    ensures CanInterrupt(d, nack)
    ensures var e := Interrupt(d, nack, received);
            && During(e, r, []) && !Reading(e) && e.state != Start
            && e.tx == d.tx && e.enabled == d.enabled && Unsent(e, r) == Unsent(d, r)
  {
    hide Reads;
    assert r.data[..0] == [] && Txs([]) == [];
    assert Addressing(r) + [] == Addressing(r);
  }

  lemma NothingRead(d: Dev, r: Request, partial: seq<byte>)
    requires During(d, r, partial) && !Reading(d)
    ensures partial == []
  {
    hide WritePart, ReadPart, Txs, Addressing, Reads;
  }

  lemma AddressKeepsTx(s: Sys, nack: bool, received: byte)
    requires TxInv(s) && Ends(s.dev, nack) == None
    requires s.dev.state in {Addr1Write, Addr2Write, Restart, AddrRead}
    ensures CanInterrupt(s.dev, nack) && TxInv(IsrStep(s, nack, received))
  {
    NothingRead(s.dev, s.issued[|s.outcomes|], s.partial);
    hide EncodeRequests, During, Interrupt, CanInterrupt, Unsent;
    AddressDuring(s.dev, s.issued[|s.outcomes|], nack, received);
  }

  lemma ReadsSnoc(bytes: seq<byte>, b: byte, total: nat)
    ensures Reads(bytes + [b], total)
         == Reads(bytes, total) + [Receive, Rx(b), if |bytes| + 1 == total then SendNack else SendAck]
  {
    assert (bytes + [b])[..|bytes|] == bytes;
  }

  lemma BeginReadKeepsTx(s: Sys, received: byte)
    requires TxInv(s) && s.dev.state == AckAddrRead
    ensures CanInterrupt(s.dev, false) && TxInv(IsrStep(s, false, received))
  {
    hide EncodeRequests, During, WritePart, ReadPart, Txs, Addressing, Reads;
    BeginReadDuring(s.dev, s.issued[|s.outcomes|], s.partial, received);
  }

  lemma BeginReadDuring(d: Dev, r: Request, partial: seq<byte>, received: byte)
    requires During(d, r, partial) && d.state == AckAddrRead
    ensures CanInterrupt(d, false) && Ends(d, false) == None && partial == [] && Unsent(d, r) == []
    ensures var e := Interrupt(d, false, received); e.state == ReadData && During(e, r, []) && e.tx == d.tx
                                                    && e.enabled == d.enabled
  {
    NoReads(r.readSize);
    hide WritePart, ReadPart, Reads, Txs, Addressing;
    var before := WritePart(r) + ReadPart(r);
    assert before + [] == before;
  }

  lemma NoReads(total: nat)
    ensures Reads([], total) == []
  {
  }

  lemma RxBus(before: seq<Bus>, bytes: seq<byte>, b: byte, total: nat)
    ensures var ack := if |bytes| + 1 == total then SendNack else SendAck;
            before + Reads(bytes, total) + [Receive] + [Rx(b), ack] == before + Reads(bytes + [b], total)
  {
    ReadsSnoc(bytes, b, total);
  }

  lemma ReadByteKeepsTx(s: Sys, nack: bool, received: byte)
    requires TxInv(s) && s.dev.state == ReadData
    ensures CanInterrupt(s.dev, nack) && TxInv(IsrStep(s, nack, received))
  {
    hide EncodeRequests, WritePart, ReadPart, Reads;
    var r := s.issued[|s.outcomes|];
    RxBus(WritePart(r) + ReadPart(r), s.partial, received, r.readSize);
    var t := IsrStep(s, nack, received);
    assert t.partial == s.partial + [received];
    assert During(t.dev, r, t.partial);
  }

  lemma NextByteKeepsTx(s: Sys, nack: bool, received: byte)
    requires TxInv(s) && s.dev.state == AckReadData && s.dev.remaining != 1
    ensures CanInterrupt(s.dev, nack) && TxInv(IsrStep(s, nack, received))
  {
    hide EncodeRequests, WritePart, ReadPart, Reads;
  }

  /** Under any acknowledgements the handler finds what it needs in the queue, and leaves it at a request boundary. */
  lemma IsrKeepsTx(s: Sys, nack: bool, received: byte)
    requires TxInv(s) && s.dev.enabled
    ensures CanInterrupt(s.dev, nack) && TxInv(IsrStep(s, nack, received))
  {
    match s.dev.state
    case Start => StartKeepsTx(s, nack, received);
    case WriteData => if nack { FailKeepsTx(s, received); } else { WriteKeepsTx(s, received); }
    case StopWriteOnly => if nack { FailKeepsTx(s, received); } else { DoneKeepsTx(s, nack, received); }
    case AckAddrRead => if nack { FailKeepsTx(s, received); } else { BeginReadKeepsTx(s, received); }
    case ReadData => ReadByteKeepsTx(s, nack, received);
    case AckReadData =>
      if s.dev.remaining == 1 { DoneKeepsTx(s, nack, received); } else { NextByteKeepsTx(s, nack, received); }
    case Addr2Write => if nack { FailKeepsTx(s, received); } else { AddressKeepsTx(s, nack, received); }
    case _ => AddressKeepsTx(s, nack, received);
  }

  // ------------------------------------------- interrupts and the record of outcomes

  lemma PrefixOfPlan(r: Request, sent: nat)
    requires r.data != [] && sent <= |r.data|
    ensures Addressing(r) + Txs(r.data[..sent]) <= WritePart(r) + ReadPart(r)
  {
    var plan := WritePart(r) + ReadPart(r);
    var head := Addressing(r) + Txs(r.data[..sent]);
    assert Txs(r.data)[..sent] == Txs(r.data[..sent]);
    assert plan[..|head|] == head;
  }

  /** The bus ends with a byte and has followed the plan so far. */
  predicate OnPlan(r: Request, bus: seq<Bus>) {
    bus != [] && bus[|bus| - 1].Tx? && bus <= WritePart(r) + ReadPart(r)
  }

  lemma ShortStop(r: Request, bus: seq<Bus>)
    requires OnPlan(r, bus)
    ensures StoppedShort(r, bus + [SendStop])
  {
    assert (bus + [SendStop])[..|bus|] == bus;
  }

  lemma DataOnPlan(r: Request, sent: nat)
    requires r.data != [] && sent <= |r.data|
    ensures OnPlan(r, Addressing(r) + Txs(r.data[..sent]))
  {
    PrefixOfPlan(r, sent);
  }

  lemma WrittenOnPlan(r: Request)
    requires r.data != [] && r.readSize == 0
    ensures OnPlan(r, WritePart(r))
  {
    DataOnPlan(r, |r.data|);
    assert r.data[..|r.data|] == r.data;
    assert WritePart(r) == Addressing(r) + Txs(r.data);
  }

  lemma AddressOnPlan(r: Request)
    requires r.data != [] && TenBit(r.addr1)
    ensures OnPlan(r, [SendStart, Tx(r.addr1)])
  {
    PrefixOfPlan(r, 0);
    assert Addressing(r)[..2] == [SendStart, Tx(r.addr1)];
    assert (Addressing(r) + Txs(r.data[..0]))[..2] == [SendStart, Tx(r.addr1)];
  }

  lemma FailingOnPlan(d: Dev, r: Request, partial: seq<byte>)
    requires During(d, r, partial) && Ends(d, true) == Some(false)
    ensures OnPlan(r, d.bus)
  {
    match d.state
    case Addr2Write => AddressOnPlan(r);
    case WriteData => DataOnPlan(r, |r.data| - d.remaining);
    case StopWriteOnly => WrittenOnPlan(r);
    case AckAddrRead =>
  }

  lemma FailedFits(s: Sys, received: byte)
    requires TxInv(s) && Ends(s.dev, true) == Some(false) && CanInterrupt(s.dev, true)
    ensures Fits(s.issued[|s.outcomes|], Failed, IsrStep(s, true, received).dev.bus)
  {
    hide EncodeRequests, During, Unsent, OnPlan, StoppedShort;
    var r := s.issued[|s.outcomes|];
    FailingOnPlan(s.dev, r, s.partial);
    ShortStop(r, s.dev.bus);
  }

  lemma DoneFits(s: Sys, nack: bool, received: byte)
    requires TxInv(s) && Ends(s.dev, nack) == Some(true) && CanInterrupt(s.dev, nack)
    ensures var o := if s.dev.state == StopWriteOnly then Written else Read(s.partial);
            Fits(s.issued[|s.outcomes|], o, IsrStep(s, nack, received).dev.bus)
  {
    var r := s.issued[|s.outcomes|];
    if s.dev.state == StopWriteOnly {
      assert WritePart(r) + [] + [] + [SendStop] == WritePart(r) + [SendStop];
    }
  }

  lemma IsrKeepsOutcomes(s: Sys, nack: bool, received: byte)
    requires TxInv(s) && OutcomesInv(s) && CanInterrupt(s.dev, nack)
    ensures OutcomesInv(IsrStep(s, nack, received))
  {
    hide Fits, EncodeRequests, During, Unsent;
    match Ends(s.dev, nack)
    case None =>
    case Some(ok) =>
      if ok { DoneFits(s, nack, received); } else { FailedFits(s, received); }
  }

  // -------------------------------------------------------- the receive queue

  lemma {:induction false} EncodeOutcomesSnoc(outcomes: seq<Outcome>, o: Outcome)
    ensures EncodeOutcomes(outcomes + [o]) == EncodeOutcomes(outcomes) + EncodeOutcome(o)
  {
    if outcomes == [] {
      assert [] + [o] == [o] && [o][1..] == [];
    } else {
      assert (outcomes + [o])[1..] == outcomes[1..] + [o];
      EncodeOutcomesSnoc(outcomes[1..], o);
      ConcatAssoc(EncodeOutcome(outcomes[0]), EncodeOutcomes(outcomes[1..]), EncodeOutcome(o));
    }
  }

  /** What the receive queue holds besides the part of a result that is still arriving. */
  function Waiting(s: Sys): seq<byte>
    requires ClaimedCount(s) <= |s.outcomes|
  {
    Held(s) + EncodeOutcomes(s.outcomes[ClaimedCount(s)..])
  }

  lemma NothingArriving(s: Sys)
    requires RxInv(s) && !Reading(s.dev)
    ensures s.dev.rx == Waiting(s)
  {
    assert Waiting(s) + [] == Waiting(s);
  }

  lemma WaitingMore(s: Sys, o: Outcome)
    requires RxInv(s)
    ensures var t := s.(outcomes := s.outcomes + [o]);
            Held(t) == Held(s) && Waiting(t) == Waiting(s) + EncodeOutcome(o)
  {
    hide EncodeOutcomes;
    var c := ClaimedCount(s);
    assert (s.outcomes + [o])[c..] == s.outcomes[c..] + [o];
    EncodeOutcomesSnoc(s.outcomes[c..], o);
    ConcatAssoc(Held(s), EncodeOutcomes(s.outcomes[c..]), EncodeOutcome(o));
  }

  /** An outcome joins the queue behind those that wait. */
  lemma OutcomeQueued(s: Sys, t: Sys, o: Outcome)
    requires RxInv(s) && t.outcomes == s.outcomes + [o] && t.sent == s.sent && t.task == s.task
    requires !Reading(t.dev) && |t.dev.rx| <= RX_BUF_SIZE && t.dev.ready == s.dev.ready + 1
    requires t.dev.rx == Waiting(s) + EncodeOutcome(o) && (o.Read? ==> 0 < |o.data| < 0xFF)
    ensures RxInv(t)
  {
    hide EncodeOutcomes;
    WaitingMore(s, o);
    assert Waiting(t) == Waiting(s.(outcomes := t.outcomes));
    assert Waiting(t) + [] == Waiting(t);
    TaskOkMore(s, t, o);
  }

  lemma TaskOkMore(s: Sys, t: Sys, o: Outcome)
    requires TaskOk(s) && t.outcomes == s.outcomes + [o] && t.sent == s.sent && t.task == s.task
    ensures TaskOk(t)
  {
  }

  lemma FailEffect(s: Sys, received: byte)
    requires CanInterrupt(s.dev, true) && Ends(s.dev, true) == Some(false)
    ensures var t := IsrStep(s, true, received);
            && t.outcomes == s.outcomes + [Failed] && t.sent == s.sent && t.task == s.task
            && !Reading(t.dev) && t.dev.ready == s.dev.ready + 1
            && (!t.dev.overflow ==> t.dev.rx == s.dev.rx + [0xFF] && |s.dev.rx| != RX_BUF_SIZE)
  {
  }

  lemma FailKeepsRx(s: Sys, received: byte)
    requires RxInv(s) && CanInterrupt(s.dev, true) && Ends(s.dev, true) == Some(false)
    requires !IsrStep(s, true, received).dev.overflow
    ensures RxInv(IsrStep(s, true, received))
  {
    FailEffect(s, received);
    assert !Reading(s.dev);
    NothingArriving(s);
    OutcomeQueued(s, IsrStep(s, true, received), Failed);
  }

  lemma WrittenKeepsRx(s: Sys, received: byte)
    requires RxInv(s) && s.dev.state == StopWriteOnly && !IsrStep(s, false, received).dev.overflow
    ensures RxInv(IsrStep(s, false, received))
  {
    NothingArriving(s);
    OutcomeQueued(s, IsrStep(s, false, received), Written);
  }

  /** A completed read has fewer than 128 bytes, because it fits the receive buffer. */
  lemma ReadKeepsRx(s: Sys, nack: bool, received: byte)
    requires TxInv(s) && RxInv(s) && s.dev.state == AckReadData && s.dev.remaining == 1
    ensures CanInterrupt(s.dev, nack) && RxInv(IsrStep(s, nack, received))
    ensures |s.partial| < RX_BUF_SIZE
  {
    assert |s.partial| == s.dev.header.readSize as nat;
    assert InProgress(s) == EncodeOutcome(Read(s.partial));
    assert |InProgress(s)| == 1 + |s.partial| <= |s.dev.rx|;
    OutcomeQueued(s, IsrStep(s, nack, received), Read(s.partial));
  }

  /** A byte of a result arrives, or nothing does. */
  lemma MoreArrives(s: Sys, t: Sys)
    requires RxInv(s) && t.outcomes == s.outcomes && t.sent == s.sent && t.task == s.task
    requires t.dev.ready == s.dev.ready && |t.dev.rx| <= RX_BUF_SIZE
    requires t.dev.rx == Waiting(s) + InProgress(t)
    ensures RxInv(t)
  {
    hide EncodeOutcomes;
  }

  lemma ByteKeepsRx(s: Sys, nack: bool, received: byte)
    requires TxInv(s) && RxInv(s) && s.dev.state == ReadData
    requires CanInterrupt(s.dev, nack) && !IsrStep(s, nack, received).dev.overflow
    ensures RxInv(IsrStep(s, nack, received))
  {
    assert s.dev.remaining > 0 && |s.partial| < 0xFF;
    hide EncodeOutcomes, During, TxInv;
    ConcatAssoc(Waiting(s), InProgress(s), [received]);
    ConcatAssoc([s.dev.header.readSize], s.partial, [received]);
    MoreArrives(s, IsrStep(s, nack, received));
  }

  lemma OtherKeepsRx(s: Sys, nack: bool, received: byte)
    requires RxInv(s) && s.dev.state != ReadData && (s.dev.state == AckAddrRead ==> s.partial == [])
    requires CanInterrupt(s.dev, nack) && Ends(s.dev, nack) == None
    requires !IsrStep(s, nack, received).dev.overflow
    ensures RxInv(IsrStep(s, nack, received))
  {
    hide EncodeOutcomes;
    if !Reading(s.dev) {
      NothingArriving(s);
      assert Waiting(s) + [] == Waiting(s);
    }
    MoreArrives(s, IsrStep(s, nack, received));
  }

  /** Interrupts that do not end a request. */
  lemma QuietIsrKeepsRx(s: Sys, nack: bool, received: byte)
    requires TxInv(s) && RxInv(s) && CanInterrupt(s.dev, nack) && Ends(s.dev, nack) == None
    requires !IsrStep(s, nack, received).dev.overflow
    ensures RxInv(IsrStep(s, nack, received))
  {
    if s.dev.state == ReadData { ByteKeepsRx(s, nack, received); } else { OtherKeepsRx(s, nack, received); }
  }

  lemma IsrKeepsRx(s: Sys, nack: bool, received: byte)
    requires TxInv(s) && RxInv(s) && CanInterrupt(s.dev, nack) && !IsrStep(s, nack, received).dev.overflow
    ensures RxInv(IsrStep(s, nack, received))
  {
    match Ends(s.dev, nack)
    case None => QuietIsrKeepsRx(s, nack, received);
    case Some(ok) =>
      if !ok { FailKeepsRx(s, received); }
      else if s.dev.state == StopWriteOnly { WrittenKeepsRx(s, received); }
      else { ReadKeepsRx(s, nack, received); }
  }

  lemma EncodeOutcomesFirst(outcomes: seq<Outcome>, c: nat)
    requires c < |outcomes|
    ensures EncodeOutcomes(outcomes[c..]) == EncodeOutcome(outcomes[c]) + EncodeOutcomes(outcomes[c + 1..])
  {
    assert outcomes[c..][1..] == outcomes[c + 1..];
  }

  function DataOf(o: Outcome): seq<byte> {
    if o.Read? then o.data else []
  }

  lemma HeadOfQueue(s: Sys)
    requires RxInv(s) && s.task == Loop && s.dev.ready != 0
    ensures |s.sent| < |s.outcomes|
    ensures var o := s.outcomes[|s.sent|];
            s.dev.rx == [SizeByte(o)] + (DataOf(o) + EncodeOutcomes(s.outcomes[|s.sent| + 1..]) + InProgress(s))
  {
    hide EncodeOutcomes;
    var o := s.outcomes[|s.sent|];
    EncodeOutcomesFirst(s.outcomes, |s.sent|);
    assert EncodeOutcome(o) == [SizeByte(o)] + DataOf(o);
  }

  lemma PullSizeKeepsRx(s: Sys)
    requires RxInv(s) && s.task == Loop && s.dev.ready != 0
    ensures CanTask(s) && RxInv(TaskStepOf(s))
  {
    hide EncodeOutcomes;
    HeadOfQueue(s);
    var o := s.outcomes[|s.sent|];
    var t := TaskStepOf(s);
    assert Held(t) == DataOf(o);
    assert InProgress(t) == InProgress(s);
  }

  /** The message that goes out is the claimed outcome. */
  lemma SendsOutcome(s: Sys)
    requires RxInv(s) && s.task.Claimed?
    ensures CanTask(s) && |s.sent| < |s.outcomes|
    ensures var o := s.outcomes[|s.sent|];
            TaskStepOf(s) == s.(task := if o.Read? then Releasing(|o.data|) else Loop, sent := s.sent + [o])
  {
    hide EncodeOutcomes, InProgress;
    var o := s.outcomes[|s.sent|];
    assert o in s.outcomes;
    if o.Read? {
      assert Held(s) == o.data && s.dev.rx[..|o.data|] == o.data;
    }
  }

  lemma SendKeepsRx(s: Sys)
    requires RxInv(s) && s.task.Claimed?
    ensures CanTask(s) && RxInv(TaskStepOf(s))
  {
    SendsOutcome(s);
    hide EncodeOutcomes, TaskStepOf, CanTask;
    var c, t := |s.sent|, TaskStepOf(s);
    assert s.outcomes[..c + 1] == s.outcomes[..c] + [s.outcomes[c]];
    assert InProgress(t) == InProgress(s) && Held(t) == Held(s) && ClaimedCount(t) == ClaimedCount(s);
  }

  lemma ReleaseKeepsRx(s: Sys)
    requires RxInv(s) && s.task.Releasing?
    ensures CanTask(s) && RxInv(TaskStepOf(s))
  {
    hide EncodeOutcomes;
    var n := s.task.length;
    assert s.outcomes[|s.sent| - 1] == s.sent[|s.sent| - 1] && |Held(s)| == n;
    ConcatAssoc(Held(s), EncodeOutcomes(s.outcomes[|s.sent|..]), InProgress(s));
    DropHead(Held(s), EncodeOutcomes(s.outcomes[|s.sent|..]) + InProgress(s));
    var t := TaskStepOf(s);
    assert Held(t) == [] && InProgress(t) == InProgress(s);
    assert [] + EncodeOutcomes(s.outcomes[|s.sent|..]) == EncodeOutcomes(s.outcomes[|s.sent|..]);
  }

  lemma DropHead<T>(a: seq<T>, b: seq<T>)
    ensures (a + b)[|a|..] == b
  {
  }

  lemma TaskKeepsRx(s: Sys)
    requires RxInv(s)
    ensures CanTask(s) && RxInv(TaskStepOf(s))
  {
    hide RxInv, TaskStepOf, CanTask;
    match s.task
    case Loop => if s.dev.ready != 0 { PullSizeKeepsRx(s); } else { QuietTaskKeepsRx(s); }
    case Claimed(_) => SendKeepsRx(s);
    case Releasing(_) => ReleaseKeepsRx(s);
    case _ => QuietTaskKeepsRx(s);
  }

  lemma QuietTaskKeepsRx(s: Sys)
    requires RxInv(s) && !s.task.Claimed? && !s.task.Releasing? && (s.task == Loop ==> s.dev.ready == 0)
    ensures CanTask(s) && RxInv(TaskStepOf(s))
  {
    hide EncodeOutcomes;
    var t := TaskStepOf(s);
    assert InProgress(t) == InProgress(s) && Held(t) == Held(s) && ClaimedCount(t) == ClaimedCount(s);
  }

  // ---------------------------------------------------- credit and the host's steps

  lemma {:induction false} TotalCostSnoc(requests: seq<Request>, r: Request)
    ensures TotalCost(requests + [r]) == TotalCost(requests) + RequestCost(r)
  {
    if requests == [] {
      assert [r][1..] == [] && [] + [r] == [r];
    } else {
      assert (requests + [r])[1..] == requests[1..] + [r];
      TotalCostSnoc(requests[1..], r);
    }
  }

  /** Whatever the handler takes out of the queue it counts as transmitted, also after an error. */
  lemma IsrConserves(d: Dev, nack: bool, received: byte)
    requires CanInterrupt(d, nack)
    ensures var e := Interrupt(d, nack, received);
            |e.tx| + e.unreported == |d.tx| + d.unreported && e.unreported >= d.unreported
  {
    hide TenBit, ReadAddress;
    match d.state
    case Start =>
    case Addr2Write => if nack {} else {}
    case WriteData => if nack {} else {}
    case StopWriteOnly => if nack {} else {}
    case AckAddrRead => if nack {} else {}
    case _ =>
  }

  lemma IsrKeepsCredit(s: Sys, nack: bool, received: byte)
    requires CreditInv(s) && CanInterrupt(s.dev, nack)
    ensures CreditInv(IsrStep(s, nack, received))
  {
    IsrConserves(s.dev, nack, received);
    hide TotalCost, Total, Interrupt, CanInterrupt;
  }

  lemma TaskKeepsCredit(s: Sys)
    requires CreditInv(s) && CanTask(s)
    ensures CreditInv(TaskStepOf(s))
  {
    hide TotalCost;
    if s.task.Reporting? {
      TotalSnoc(s.toHost, s.dev.unreported);
    } else {
      hide Total;
    }
  }

  /** A request that the host had the credit for always fits the transmit queue. */
  lemma DeliverFits(s: Sys)
    requires CreditInv(s) && s.toDevice != []
    ensures var r := s.toDevice[0]; var d := WriteRead(s.dev, r);
            && d == s.dev.(tx := s.dev.tx + EncodeRequest(r), enabled := true)
            && |r.data| + r.readSize as nat > 0
            && CreditInv(Step(s.(task := Loop), Deliver).(task := s.task))
  {
    var r := s.toDevice[0];
    assert r in s.toDevice;
    assert |s.dev.tx| + RequestCost(r) <= TX_BUF_SIZE;
    ConcatAssoc(s.dev.tx, [r.addr1, r.addr2, |r.data|, r.readSize], r.data);
    assert s.dev.tx + [] == s.dev.tx;
  }

  lemma DeliverKeepsTx(s: Sys)
    requires TxInv(s) && CreditInv(s) && s.toDevice != [] && s.task == Loop
    ensures TxInv(Step(s, Deliver))
  {
    DeliverFits(s);
    hide EncodeRequests, EncodeRequest, During, WriteRead, TotalCost, Total, Unsent;
    if s.dev.state == Start {
      DeliverAtStart(s, Step(s, Deliver));
    } else {
      DeliverDuring(s, Step(s, Deliver));
    }
  }

  /** `t` is `s` with one more request in the queue and the interrupt enabled. */
  predicate Delivered(s: Sys, t: Sys) {
    && s.toDevice != [] && t.issued == s.issued + [s.toDevice[0]]
    && t == s.(toDevice := t.toDevice, issued := t.issued, dev := t.dev)
    && t.dev == s.dev.(tx := s.dev.tx + EncodeRequest(s.toDevice[0]), enabled := true)
    && |s.toDevice[0].data| + s.toDevice[0].readSize as nat > 0
  }

  lemma DeliverAtStart(s: Sys, t: Sys)
    requires TxInv(s) && Delivered(s, t) && s.dev.state == Start
    ensures TxInv(t)
  {
    hide EncodeRequests, EncodeRequest, During, Unsent;
    var k := |s.outcomes|;
    assert t.issued[k..] == s.issued[k..] + [s.toDevice[0]];
    EncodeRequestsSnoc(s.issued[k..], s.toDevice[0]);
  }

  lemma DeliverDuring(s: Sys, t: Sys)
    requires TxInv(s) && Delivered(s, t) && s.dev.state != Start
    ensures TxInv(t)
  {
    hide EncodeRequests, EncodeRequest, During, Unsent;
    var k, r := |s.outcomes|, s.toDevice[0];
    assert t.issued[k] == s.issued[k] && t.issued[k + 1..] == s.issued[k + 1..] + [r];
    EncodeRequestsSnoc(s.issued[k + 1..], r);
    ConcatAssoc(Unsent(s.dev, s.issued[k]), EncodeRequests(s.issued[k + 1..]), EncodeRequest(r));
    DuringFrame(s.dev, t.dev, s.issued[k], s.partial);
  }

  lemma DuringFrame(d: Dev, e: Dev, r: Request, partial: seq<byte>)
    requires During(d, r, partial)
    requires e == d.(tx := e.tx, enabled := e.enabled, rx := e.rx, ready := e.ready, unreported := e.unreported)
    ensures During(e, r, partial) && Unsent(e, r) == Unsent(d, r)
  {
  }

  lemma DeliverKeepsInv(s: Sys)
    requires Inv(s) && s.toDevice != [] && s.task == Loop
    ensures Inv(Step(s, Deliver)) && !(!s.dev.overflow && Step(s, Deliver).dev.overflow)
  {
    DeliverFits(s);
    DeliverKeepsTx(s);
    RxFrame(s, Step(s, Deliver));
    hide TxInv, RxInv, WriteRead, TotalCost, Total, Fits;
  }

  lemma RxFrame(s: Sys, t: Sys)
    requires RxInv(s) && t.outcomes == s.outcomes && t.sent == s.sent && t.task == s.task && t.partial == s.partial
    requires t.dev.rx == s.dev.rx && t.dev.ready == s.dev.ready
    requires t.dev.state == s.dev.state && t.dev.header == s.dev.header
    ensures RxInv(t)
  {
    hide EncodeOutcomes;
  }

  lemma TxFrame(s: Sys, t: Sys)
    requires TxInv(s) && t.outcomes == s.outcomes && t.issued == s.issued && t.partial == s.partial
    requires t.dev == s.dev.(rx := t.dev.rx, ready := t.dev.ready, unreported := t.dev.unreported)
    ensures TxInv(t)
  {
    if s.dev.state != Start {
      DuringFrame(s.dev, t.dev, s.issued[|s.outcomes|], s.partial);
    }
    hide During, EncodeRequests, Unsent;
  }

  lemma HostKeepsCredit(s: Sys, e: Event)
    requires CreditInv(s) && Enabled(s, e) && (e.HostSends? || e.HostReceives?)
    ensures CreditInv(Step(s, e))
  {
    if e.HostSends? {
      TotalCostSnoc(s.toDevice, e.request);
    }
  }

  lemma HostKeepsInv(s: Sys, e: Event)
    requires Inv(s) && Enabled(s, e) && (e.HostSends? || e.HostReceives?)
    ensures Inv(Step(s, e))
  {
    hide TxInv, RxInv, Fits, CreditInv;
    TxFrame(s, Step(s, e));
    RxFrame(s, Step(s, e));
    HostKeepsCredit(s, e);
  }

  lemma TaskKeepsTx(s: Sys)
    requires TxInv(s) && CanTask(s)
    ensures TxInv(TaskStepOf(s))
  {
    TxFrame(s, TaskStepOf(s));
  }

  lemma StepKeepsInv(s: Sys, e: Event)
    requires Inv(s) && Enabled(s, e)
    ensures CanStep(s, e)
    ensures !Step(s, e).dev.overflow ==> Inv(Step(s, e))
  {
    hide EncodeRequests, EncodeOutcomes, During, TotalCost, Total, Fits, Held, Interrupt;
    match e
    case Deliver => DeliverKeepsInv(s);
    case Isr(nack, received) =>
      IsrKeepsTx(s, nack, received);
      IsrKeepsOutcomes(s, nack, received);
      IsrKeepsCredit(s, nack, received);
      if !IsrStep(s, nack, received).dev.overflow { IsrKeepsRx(s, nack, received); }
    case TaskStep =>
      TaskKeepsRx(s);
      TaskKeepsTx(s);
      TaskKeepsCredit(s);
      TaskKeepsOutcomes(s);
    case _ => HostKeepsInv(s, e);
  }

  lemma TaskKeepsOutcomes(s: Sys)
    requires OutcomesInv(s) && CanTask(s)
    ensures OutcomesInv(TaskStepOf(s))
  {
    hide Fits;
  }

  // ----------------------------------------------------------- interrupts needed

  /** Interrupts that a request takes at most. */
  function Bound(r: Request): nat {
    3 + |r.data| + Tail(r)
  }

  /** After the last byte has been written. */
  function Tail(r: Request): nat {
    if r.readSize == 0 then 1 else 3 + 2 * r.readSize as nat
  }

  /** Interrupts that the current request still takes at most. */
  function Left(d: Dev, r: Request): int {
    match d.state
    case Start => Bound(r)
    case Addr1Write => 2 + |r.data| + Tail(r)
    case Addr2Write => 1 + |r.data| + Tail(r)
    case WriteData => d.remaining + Tail(r)
    case StopWriteOnly => 1
    case Restart => Tail(r)
    case AddrRead => 2 + 2 * r.readSize as nat
    case AckAddrRead => 1 + 2 * r.readSize as nat
    case ReadData => 2 * d.remaining
    case AckReadData => 2 * d.remaining - 1
  }

  function Bounds(requests: seq<Request>): nat {
    if requests == [] then 0 else Bound(requests[0]) + Bounds(requests[1..])
  }

  /** Interrupts that the requests not yet ended still take at most. */
  function Outstanding(s: Sys): int
    requires |s.outcomes| <= |s.issued|
  {
    var k := |s.outcomes|;
    if s.dev.state == Start || k == |s.issued| then Bounds(s.issued[k..])
    else Left(s.dev, s.issued[k]) + Bounds(s.issued[k + 1..])
  }

  lemma BoundsFirst(requests: seq<Request>, k: nat)
    requires k < |requests|
    ensures Bounds(requests[k..]) == Bound(requests[k]) + Bounds(requests[k + 1..])
  {
    assert requests[k..][1..] == requests[k + 1..];
  }

  lemma {:induction false} BoundsSnoc(requests: seq<Request>, r: Request)
    ensures Bounds(requests + [r]) == Bounds(requests) + Bound(r)
  {
    if requests == [] {
      assert [r][1..] == [] && [] + [r] == [r];
    } else {
      assert (requests + [r])[1..] == requests[1..] + [r];
      BoundsSnoc(requests[1..], r);
    }
  }

  lemma WritingLeft(d: Dev, r: Request, partial: seq<byte>, nack: bool, received: byte)
    requires During(d, r, partial) && CanInterrupt(d, nack)
    requires d.state in {Start, Addr1Write, Addr2Write, WriteData, StopWriteOnly}
    ensures Left(d, r) >= 1
    ensures Ends(d, nack) == None ==> var e := Interrupt(d, nack, received);
                                      e.state != Start && Left(e, r) < Left(d, r)
  {
    hide WritePart, ReadPart, Reads, Txs, Addressing, TenBit, ReadAddress;
  }

  lemma ReadingLeft(d: Dev, r: Request, partial: seq<byte>, nack: bool, received: byte)
    requires During(d, r, partial) && CanInterrupt(d, nack)
    requires d.state in {Restart, AddrRead, AckAddrRead, ReadData, AckReadData}
    ensures Left(d, r) >= 1
    ensures Ends(d, nack) == None ==> var e := Interrupt(d, nack, received);
                                      e.state != Start && Left(e, r) < Left(d, r)
  {
    hide WritePart, ReadPart, Reads, Txs, Addressing, TenBit, ReadAddress;
  }

  lemma LeftDecreases(d: Dev, r: Request, partial: seq<byte>, nack: bool, received: byte)
    requires During(d, r, partial) && CanInterrupt(d, nack)
    ensures Left(d, r) >= 1
    ensures Ends(d, nack) == None ==> var e := Interrupt(d, nack, received);
                                      e.state != Start && Left(e, r) < Left(d, r)
  {
    match d.state
    case Restart | AddrRead | AckAddrRead | ReadData | AckReadData => ReadingLeft(d, r, partial, nack, received);
    case _ => WritingLeft(d, r, partial, nack, received);
  }

  /** The first interrupt of a request has used up one of its interrupts. */
  lemma StartProgress(d: Dev, r: Request, rest: seq<byte>, nack: bool, received: byte)
    requires d.state == Start && d.tx == EncodeRequest(r) + rest && |r.data| + r.readSize as nat > 0
    ensures CanInterrupt(d, nack) && Ends(d, nack) == None
    ensures var e := Interrupt(d, nack, received); e.state != Start && Left(e, r) < Bound(r)
  {
    assert d.tx[2] == |r.data| && d.tx[3] == r.readSize;
  }

  /** Every interrupt brings the end nearer. */
  lemma IsrProgress(s: Sys, nack: bool, received: byte)
    requires TxInv(s) && s.dev.enabled && CanInterrupt(s.dev, nack)
    requires |IsrStep(s, nack, received).outcomes| <= |s.issued|
    ensures Outstanding(IsrStep(s, nack, received)) < Outstanding(s)
  {
    hide EncodeRequests, Bounds, During, Left, EncodeRequest, Interrupt, CanInterrupt, Unsent;
    var k := |s.outcomes|;
    if s.dev.state == Start {
      BoundsFirst(s.issued, k);
      EncodeRequestsFirst(s.issued, k);
      assert s.issued[k] in s.issued;
      StartProgress(s.dev, s.issued[k], EncodeRequests(s.issued[k + 1..]), nack, received);
    } else {
      LeftDecreases(s.dev, s.issued[k], s.partial, nack, received);
      EndsAtStart(s.dev, nack, received);
    }
  }

  lemma EndsAtStart(d: Dev, nack: bool, received: byte)
    requires CanInterrupt(d, nack)
    ensures Ends(d, nack) == None || Interrupt(d, nack, received).state == Start
  {
    hide TenBit, ReadAddress, PushRx;
  }

  // --------------------------------------------------------------- whole runs

  /** One step of a run; nothing happens if the step is not possible. */
  function Next(s: Sys, e: Event): Sys {
    if Enabled(s, e) && CanStep(s, e) then Step(s, e) else s
  }

  function Run(s: Sys, events: seq<Event>): Sys
    decreases |events|
  {
    if events == [] then s else Run(Next(s, events[0]), events[1..])
  }

  /** The host spends only credit it has and no result is dropped for want of room. */
  predicate Legal(s: Sys, events: seq<Event>)
    decreases |events|
  {
    events == [] || (Enabled(s, events[0]) && !Next(s, events[0]).dev.overflow && Legal(Next(s, events[0]), events[1..]))
  }

  function Interrupts(events: seq<Event>): nat {
    if events == [] then 0 else (if events[0].Isr? then 1 else 0) + Interrupts(events[1..])
  }

  /** A new request adds its own bound. */
  lemma DeliverOutstanding(s: Sys, t: Sys, r: Request)
    requires |s.outcomes| <= |s.issued| && (s.dev.state != Start ==> |s.outcomes| < |s.issued|)
    requires t.issued == s.issued + [r] && t.outcomes == s.outcomes
    requires t.dev.state == s.dev.state && t.dev.remaining == s.dev.remaining
    ensures Outstanding(t) - Bounds(t.issued) == Outstanding(s) - Bounds(s.issued)
  {
    hide Bounds, Bound;
    var k := |s.outcomes|;
    BoundsSnoc(s.issued, r);
    if s.dev.state == Start {
      assert t.issued[k..] == s.issued[k..] + [r];
      BoundsSnoc(s.issued[k..], r);
    } else {
      assert t.issued[k + 1..] == s.issued[k + 1..] + [r];
      BoundsSnoc(s.issued[k + 1..], r);
    }
  }

  lemma SameOutstanding(s: Sys, t: Sys)
    requires |s.outcomes| <= |s.issued| && t.issued == s.issued && t.outcomes == s.outcomes
    requires t.dev.state == s.dev.state && t.dev.remaining == s.dev.remaining
    ensures Outstanding(t) == Outstanding(s)
  {
  }

  lemma StepOutstanding(s: Sys, e: Event, t: Sys)
    requires TxInv(s) && CreditInv(s) && Enabled(s, e) && CanStep(s, e) && t == Step(s, e)
    requires |t.outcomes| <= |t.issued|
    ensures Outstanding(t) - Bounds(t.issued) + (if e.Isr? then 1 else 0) <= Outstanding(s) - Bounds(s.issued)
  {
    hide Outstanding, Bounds, During, EncodeRequests, TotalCost, Total;
    match e
    case Isr(nack, received) => IsrProgress(s, nack, received);
    case Deliver =>
      DeliverFits(s);
      DeliverOutstanding(s, t, s.toDevice[0]);
    case _ => SameOutstanding(s, t);
  }

  lemma {:induction false} RunKeepsInv(s: Sys, events: seq<Event>)
    requires Inv(s) && Legal(s, events)
    ensures var t := Run(s, events);
            && Inv(t)
            && Interrupts(events) + Outstanding(t) - Bounds(t.issued) <= Outstanding(s) - Bounds(s.issued)
    decreases |events|
  {
    if events != [] {
      StepKeepsInv(s, events[0]);
      StepOutstanding(s, events[0], Next(s, events[0]));
      hide Inv, Outstanding, Bounds, Step, Enabled;
      RunKeepsInv(Next(s, events[0]), events[1..]);
    }
  }

  lemma OutstandingNonNegative(s: Sys)
    requires TxInv(s)
    ensures Outstanding(s) >= 0
  {
    hide EncodeRequests, WritePart, ReadPart, Reads, Txs;
  }

  lemma ConfiguredInv()
    ensures var c := Configured(); Inv(c) && Outstanding(c) == 0 == Bounds(c.issued)
  {
    var c := Configured();
    assert c.issued[0..] == [];
    assert EncodeRequests([]) == [] && EncodeOutcomes([]) == [] && c.outcomes[0..] == [] && c.outcomes[..0] == [];
  }

  /** No queue assertion fails, and the interrupts are bounded by what the requests need. */
  lemma RunsAreSafe(events: seq<Event>)
    requires Legal(Configured(), events)
    ensures var s := Run(Configured(), events);
            && Inv(s) && Interrupts(events) <= Bounds(s.issued)
            && forall e :: Enabled(s, e) ==> CanStep(s, e)
  {
    var c := Configured();
    ConfiguredInv();
    RunKeepsInv(c, events);
    var s := Run(c, events);
    OutstandingNonNegative(s);
    hide *;
    forall e | Enabled(s, e) ensures CanStep(s, e) {
      StepKeepsInv(s, e);
    }
  }

  /**
   In every run in which the host spends only its credit and the results fit the
   receive queue, whatever the order of interrupts and main loop steps and
   whatever is acknowledged: every finished request has exactly one outcome, in
   order, that fits what was asked and what happened on the bus, and the host gets
   exactly those; what is not finished keeps the interrupt enabled, and the number of
   interrupts is bounded by what the requests need; and every byte of the transmit
   buffer is accounted for.
   */
  lemma I2cRuns(events: seq<Event>)
    requires Legal(Configured(), events)
    ensures var s := Run(Configured(), events);
            && |s.outcomes| == |s.transcripts| <= |s.issued|
            && (forall i :: 0 <= i < |s.outcomes| ==> Fits(s.issued[i], s.outcomes[i], s.transcripts[i]))
            && s.sent <= s.outcomes
            && s.dev.ready == |s.outcomes| - ClaimedCount(s) + (if s.task.GotSize? then 1 else 0)
            && (s.dev.state == Start ==> s.dev.tx == EncodeRequests(s.issued[|s.outcomes|..]))
            && (|s.outcomes| < |s.issued| ==> s.dev.enabled)
            && Interrupts(events) <= Bounds(s.issued)
            && s.credit + TotalCost(s.toDevice) + |s.dev.tx| + s.dev.unreported + Total(s.toHost) == TX_BUF_SIZE
  {
    RunsAreSafe(events);
    InvSays(Run(Configured(), events));
    hide *;
  }

  lemma InvSays(s: Sys)
    requires Inv(s)
    ensures |s.outcomes| == |s.transcripts| <= |s.issued|
    ensures forall i :: 0 <= i < |s.outcomes| ==> Fits(s.issued[i], s.outcomes[i], s.transcripts[i])
    ensures s.sent <= s.outcomes
    ensures s.dev.ready == |s.outcomes| - ClaimedCount(s) + if s.task.GotSize? then 1 else 0
    ensures s.dev.state == Start ==> s.dev.tx == EncodeRequests(s.issued[|s.outcomes|..])
    ensures |s.outcomes| < |s.issued| ==> s.dev.enabled
    ensures s.credit + TotalCost(s.toDevice) + |s.dev.tx| + s.dev.unreported + Total(s.toHost) == TX_BUF_SIZE
  {
    hide EncodeRequests, EncodeOutcomes, During, Fits, Held, TaskOk, InProgress, TotalCost, Total;
  }

  /**
   No result is dropped while what waits in the receive queue leaves room for the
   current result. A read of 128 bytes or more never fits.
   */
  lemma RoomForResult(s: Sys, nack: bool, received: byte)
    requires TxInv(s) && RxInv(s) && s.dev.enabled && !s.dev.overflow && |s.outcomes| < |s.issued|
    requires |Waiting(s)| + 1 + s.issued[|s.outcomes|].readSize as nat <= RX_BUF_SIZE
    ensures CanInterrupt(s.dev, nack) && !IsrStep(s, nack, received).dev.overflow
  {
    IsrKeepsTx(s, nack, received);
    hide EncodeOutcomes, EncodeRequests, WritePart, ReadPart, Reads, Txs, Addressing, TenBit, ReadAddress, Held;
    var r := s.issued[|s.outcomes|];
    assert s.dev.rx == Waiting(s) + InProgress(s);
    assert |InProgress(s)| <= (if s.dev.state == ReadData then r.readSize as nat else 1 + r.readSize as nat);
    assert !Reading(s.dev) ==> InProgress(s) == [];
    hide TxInv, RxInv, Waiting, InProgress, During, Done;
    assert s.dev.state != AckReadData ==> |s.dev.rx| < RX_BUF_SIZE;
    OnlyPushesDrop(s.dev, nack, received);
  }

  /** A byte is dropped only when the queue is full and the state is one that pushes. */
  lemma OnlyPushesDrop(d: Dev, nack: bool, received: byte)
    requires CanInterrupt(d, nack) && !d.overflow && (d.state != AckReadData ==> |d.rx| < RX_BUF_SIZE)
    ensures !Interrupt(d, nack, received).overflow
  {
    hide TenBit, ReadAddress;
  }

  // --------------------------------------------------- how a request comes to its end

  /** What an interrupt finds: the acknowledge status and the receive register. */
  datatype Signal = Signal(nack: bool, received: byte)

  /** How a row of interrupts ends the current request, if one of them does. */
  function Ending(d: Dev, signals: seq<Signal>): Option<bool>
    decreases |signals|
  {
    if signals == [] || !CanInterrupt(d, signals[0].nack) then None
    else if Ends(d, signals[0].nack) != None then Ends(d, signals[0].nack)
    else Ending(Interrupt(d, signals[0].nack, signals[0].received), signals[1..])
  }

  /** The request is under way, and the queue holds the rest of it before what comes behind. */
  predicate UnderWay(d: Dev, r: Request, partial: seq<byte>, behind: seq<byte>) {
    During(d, r, partial) && d.tx == Unsent(d, r) + behind
  }

  lemma StartUnderWay(d: Dev, r: Request, behind: seq<byte>, signal: Signal)
    requires d.state == Start && d.tx == EncodeRequest(r) + behind && |r.data| + r.readSize as nat > 0
    ensures CanInterrupt(d, signal.nack) && UnderWay(Interrupt(d, signal.nack, signal.received), r, [], behind)
  {
    hide Addressing, Txs, ReadPart, Reads;
    assert d.tx == [r.addr1, r.addr2, |r.data|, r.readSize] + (r.data + behind);
    assert d.tx[4..] == r.data + behind;
    assert r.data[0..] == r.data;
  }

  lemma AddressUnderWay(d: Dev, r: Request, partial: seq<byte>, behind: seq<byte>, signal: Signal)
    requires UnderWay(d, r, partial, behind) && Ends(d, signal.nack) == None
    requires d.state in {Addr1Write, Addr2Write, Restart, AddrRead}
    ensures CanInterrupt(d, signal.nack) && UnderWay(Interrupt(d, signal.nack, signal.received), r, [], behind)
  {
    NothingRead(d, r, partial);
    AddressDuring(d, r, signal.nack, signal.received);
  }

  lemma WriteUnderWay(d: Dev, r: Request, partial: seq<byte>, behind: seq<byte>, signal: Signal)
    requires UnderWay(d, r, partial, behind) && d.state == WriteData && !signal.nack
    ensures CanInterrupt(d, false) && UnderWay(Interrupt(d, false, signal.received), r, [], behind)
  {
    hide Addressing, Txs, WritePart, ReadPart, Reads;
    var sent := |r.data| - d.remaining;
    NothingRead(d, r, partial);
    assert r.data[sent..] == [r.data[sent]] + r.data[sent + 1..];
    assert d.tx[1..] == r.data[sent + 1..] + behind;
    WriteDuring(d, r, signal.received);
  }

  lemma ReadUnderWay(d: Dev, r: Request, partial: seq<byte>, behind: seq<byte>, signal: Signal)
    requires UnderWay(d, r, partial, behind) && d.state == ReadData
    ensures CanInterrupt(d, signal.nack)
    ensures UnderWay(Interrupt(d, signal.nack, signal.received), r, partial + [signal.received], behind)
  {
    hide WritePart, ReadPart, Reads;
    RxBus(WritePart(r) + ReadPart(r), partial, signal.received, r.readSize);
  }

  /** Every interrupt that does not end the request keeps it under way, whatever is acknowledged. */
  lemma StillUnderWay(d: Dev, r: Request, partial: seq<byte>, behind: seq<byte>, signal: Signal) returns (more: seq<byte>)
    requires UnderWay(d, r, partial, behind)
    ensures CanInterrupt(d, signal.nack)
    ensures Ends(d, signal.nack) == None ==> UnderWay(Interrupt(d, signal.nack, signal.received), r, more, behind)
  {
    hide WritePart, ReadPart, Reads, Txs, Addressing, TenBit, ReadAddress;
    more := if d.state == ReadData then partial + [signal.received] else if d.state == AckReadData then partial else [];
    if Ends(d, signal.nack) == None {
      match d.state
      case WriteData => WriteUnderWay(d, r, partial, behind, signal);
      case AckAddrRead => BeginReadDuring(d, r, partial, signal.received);
      case ReadData => ReadUnderWay(d, r, partial, behind, signal);
      case AckReadData =>
      case _ => AddressUnderWay(d, r, partial, behind, signal);
    }
  }

  lemma {:induction false} UnderWayEnds(d: Dev, r: Request, partial: seq<byte>, behind: seq<byte>, signals: seq<Signal>)
    requires UnderWay(d, r, partial, behind) && |signals| >= Left(d, r)
    ensures Ending(d, signals).Some?
    decreases |signals|
  {
    hide During, Interrupt, CanInterrupt, Left, Ends, Unsent;
    LeftIsPositive(d, r, partial, behind, signals);
    var more := StillUnderWay(d, r, partial, behind, signals[0]);
    LeftDecreases(d, r, partial, signals[0].nack, signals[0].received);
    if Ends(d, signals[0].nack) == None {
      UnderWayEnds(Interrupt(d, signals[0].nack, signals[0].received), r, more, behind, signals[1..]);
    }
  }

  lemma LeftIsPositive(d: Dev, r: Request, partial: seq<byte>, behind: seq<byte>, signals: seq<Signal>)
    requires UnderWay(d, r, partial, behind) && |signals| >= Left(d, r)
    ensures signals != []
  {
    var more := StillUnderWay(d, r, partial, behind, Signal(false, 0));
    hide During, Interrupt, CanInterrupt, Left, Ends, Unsent;
    LeftDecreases(d, r, partial, false, 0);
  }

  /** A request that neither writes nor reads gets as far as the address to read from. */
  lemma EmptyRequestAddresses(d: Dev, r: Request, behind: seq<byte>, a: Signal, b: Signal)
    requires d.state == Start && d.tx == EncodeRequest(r) + behind && r.data == [] && r.readSize == 0
    ensures CanInterrupt(d, a.nack) && Ends(d, a.nack) == None
    ensures var e := Interrupt(d, a.nack, a.received);
            && CanInterrupt(e, b.nack) && Ends(e, b.nack) == None
            && var f := Interrupt(e, b.nack, b.received); f.state == AckAddrRead && f.remaining == 0
                                                          && f.header.readSize == 0
  {
    hide TenBit, ReadAddress;
    assert d.tx[0] == r.addr1 && d.tx[2] == 0 && d.tx[3] == 0;
  }

  /** Reading with nothing left to read goes on and on. */
  lemma {:induction false} ReadingGoesOn(d: Dev, signals: seq<Signal>)
    requires Reading(d) && d.remaining <= 0
    ensures Ending(d, signals) == None
    decreases |signals|
  {
    if signals != [] { ReadingGoesOn(Interrupt(d, signals[0].nack, signals[0].received), signals[1..]); }
  }

  /** An empty request ends exactly when its address is refused, and then as a failure; otherwise it reads on and on. */
  lemma EmptyRequestEnds(d: Dev, r: Request, behind: seq<byte>, signals: seq<Signal>)
    requires d.state == Start && d.tx == EncodeRequest(r) + behind && r.data == [] && r.readSize == 0
    ensures Ending(d, signals) == if |signals| >= 3 && signals[2].nack then Some(false) else None
  {
    if |signals| >= 2 {
      EmptyRequestAddresses(d, r, behind, signals[0], signals[1]);
      var e := Interrupt(d, signals[0].nack, signals[0].received);
      var f := Interrupt(e, signals[1].nack, signals[1].received);
      assert signals[1..][0] == signals[1] && signals[1..][1..] == signals[2..];
      AddressedEmpty(f, signals[2..]);
      hide Interrupt, CanInterrupt, Ends;
      assert Ending(d, signals) == Ending(e, signals[1..]) == Ending(f, signals[2..]);
    } else if |signals| == 1 {
      EmptyRequestAddresses(d, r, behind, signals[0], signals[0]);
      hide Interrupt, CanInterrupt, Ends;
      assert signals[1..] == [];
    }
  }

  lemma AddressedEmpty(d: Dev, signals: seq<Signal>)
    requires d.state == AckAddrRead && d.remaining == 0 && d.header.readSize == 0
    ensures Ending(d, signals) == if signals != [] && signals[0].nack then Some(false) else None
  {
    if signals != [] && !signals[0].nack {
      ReadingGoesOn(Interrupt(d, false, signals[0].received), signals[1..]);
    }
  }

  /**
   A request ends, whatever is acknowledged and whatever arrives, within the number of
   interrupts that is its bound, exactly when it writes or reads something.
   */
  lemma RequestsEnd(d: Dev, r: Request, behind: seq<byte>)
    requires d.state == Start && d.tx == EncodeRequest(r) + behind
    ensures (forall signals :: |signals| >= Bound(r) ==> Ending(d, signals).Some?) <==> |r.data| + r.readSize as nat > 0
  {
    hide Ending, Interrupt, CanInterrupt, During;
    if |r.data| + r.readSize as nat > 0 {
      forall signals | |signals| >= Bound(r) ensures Ending(d, signals).Some? {
        StartedEnds(d, r, behind, signals);
      }
    } else {
      var signals := seq(Bound(r), _ => Signal(false, 0));
      EmptyRequestEnds(d, r, behind, signals);
      assert |signals| >= Bound(r) && Ending(d, signals) == None;
    }
  }

  lemma StartedEnds(d: Dev, r: Request, behind: seq<byte>, signals: seq<Signal>)
    requires d.state == Start && d.tx == EncodeRequest(r) + behind && |r.data| + r.readSize as nat > 0
    requires |signals| >= Bound(r)
    ensures Ending(d, signals).Some?
  {
    var first := signals[0];
    StartProgress(d, r, behind, first.nack, first.received);
    StartUnderWay(d, r, behind, first);
    hide Interrupt, CanInterrupt, During, Left;
    UnderWayEnds(Interrupt(d, first.nack, first.received), r, [], behind, signals[1..]);
  }

  // --------------------------------------------------------- ten-bit addresses

  /** A ten-bit address goes out in two bytes behind the start bit. */
  predicate FullyAddressed(r: Request, bus: seq<Bus>) {
    TenBit(r.addr1) ==> [SendStart, Tx(r.addr1), Tx(r.addr2)] <= bus
  }

  lemma AddressingFirst(r: Request, bytes: seq<byte>)
    requires r.data != []
    ensures Addressing(r) <= Transcript(r, bytes)
  {
    var tail := Txs(r.data) + if r.readSize != 0 then [SendRestart] else [];
    assert WritePart(r) == Addressing(r) + tail;
    hide WritePart, Addressing, Txs, Reads, ReadPart;
    assert Transcript(r, bytes) == Addressing(r) + (tail + ReadPart(r) + Reads(bytes, r.readSize) + [SendStop]);
  }

  /**
   Of a request that has ended well the second address byte was on the bus unless there
   was nothing to write to a ten-bit address.
   */
  lemma TenBitReads(r: Request, o: Outcome, bus: seq<Bus>)
    requires Fits(r, o, bus) && o != Failed && |r.data| + r.readSize as nat > 0
    ensures FullyAddressed(r, bus) <==> !TenBit(r.addr1) || r.data != []
  {
    var bytes := if o.Read? then o.data else [];
    if r.data != [] {
      AddressingFirst(r, bytes);
      assert TenBit(r.addr1) ==> Addressing(r) == [SendStart, Tx(r.addr1), Tx(r.addr2)];
    } else if TenBit(r.addr1) {
      NoSecondByte(r, bytes);
    }
  }

  lemma NoSecondByte(r: Request, bytes: seq<byte>)
    requires r.data == [] && bytes != [] && |bytes| == r.readSize as nat
    ensures var t := Transcript(r, bytes); |t| > 2 && t[2] == Receive
  {
    var incoming := Reads(bytes, r.readSize);
    ReadsBegin(bytes, r.readSize);
    hide Reads;
    assert Transcript(r, bytes) == [SendStart, Tx(ReadAddress(r.addr1))] + incoming + [SendStop];
  }

  lemma {:induction false} ReadsBegin(bytes: seq<byte>, total: nat)
    requires bytes != []
    ensures Reads(bytes, total) != [] && Reads(bytes, total)[0] == Receive
    decreases |bytes|
  {
    if |bytes| > 1 { ReadsBegin(bytes[..|bytes| - 1], total); }
  }

  /**
   Reading four bytes from the ten-bit address 0x0F0: after three acknowledged
   interrupts the bus is reading, and only the first address byte has gone out.
   */
  lemma TenBitReadExample(d: Dev, behind: seq<byte>, x: byte)
    requires d.state == Start && d.tx == EncodeRequest(Request(0xF0, 0xF0, [], 4)) + behind
    ensures CanInterrupt(d, false)
    ensures var e := Interrupt(d, false, x);
            && CanInterrupt(e, false) && var f := Interrupt(e, false, x);
            && CanInterrupt(f, false) && var g := Interrupt(f, false, x);
            && g.state == ReadData && g.bus == [SendStart, Tx(0xF1), Receive]
            && TenBit(0xF0) && !FullyAddressed(Request(0xF0, 0xF0, [], 4), g.bus)
  {
    assert d.tx[0] == 0xF0 && d.tx[2] == 0 && d.tx[3] == 4;
  }
}
