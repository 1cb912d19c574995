/**
 The state of one I2C module (app_layer_v1/i2c.c) over two ring buffers, each
 piece of code proved against its step in module I2c.
 */
module I2cModule {
  import opened Bytes
  import opened ByteQueue
  import opened I2c

  class Module {
    var state: MessageState
    var header: Header
    var unreported: int
    var remaining: int
    const rx: Queue
    var ready: int
    const tx: Queue
    var enabled: bool

    ghost var overflow: bool
    ghost var bus: seq<Bus>

    ghost predicate Valid()
      reads this, rx, tx
    {
      && rx.Valid() && tx.Valid() && rx != tx && rx.buf != tx.buf
      && rx.buf.Length == RX_BUF_SIZE && tx.buf.Length == TX_BUF_SIZE
    }

    ghost function Abs(): Dev
      requires Valid()
      reads this, rx, rx.buf, tx, tx.buf
    {
      Dev(state, header, unreported, remaining, rx.Contents(), ready, tx.Contents(), enabled, overflow, bus)
    }

    /** I2CConfigMaster with a rate. */
    constructor ()
      ensures Valid() && Abs() == Configured().dev
    {
      state, header, remaining, ready, enabled := Start, Header(0, 0, 0, 0), 0, 0, false;
      unreported := TX_BUF_SIZE;
      rx := new Queue(RX_BUF_SIZE);
      tx := new Queue(TX_BUF_SIZE);
      overflow, bus := false, [];
    }

    method PushResultByte(b: byte)
      requires Valid()
      modifies this`overflow, rx, rx.buf
      ensures Valid() && Abs() == PushRx(old(Abs()), b)
    {
      var dropped := rx.ByteQueuePushByte(b);
      if dropped { overflow := true; }
    }

    method PushRequestBytes(data: seq<byte>)
      requires Valid()
      modifies this`overflow, tx, tx.buf
      ensures Valid() && Abs() == PushTx(old(Abs()), data)
    {
      var dropped := tx.ByteQueuePushBuffer(data);
      if dropped { overflow := true; }
      assert data == [] ==> old(tx.Contents()) + data == old(tx.Contents());
    }

    method I2CWriteRead(r: Request)
      requires Valid()
      modifies this, tx, tx.buf
      ensures Valid() && Abs() == WriteRead(old(Abs()), r)
    {
      PushRequestBytes([r.addr1, r.addr2, |r.data|, r.readSize]);
      PushRequestBytes(r.data);
      enabled := true;
    }

    method Finish()
      requires Valid()
      modifies this
      ensures Valid() && Abs() == Done(old(Abs()))
    {
      ready := ready + 1;
      bus := bus + [SendStop];
      state := Start;
      enabled := tx.size > 0;
    }

    method DropRest()
      requires Valid() && 0 <= remaining <= |tx.Contents()|
      modifies this`unreported, tx
      ensures Valid() && rx.Contents() == old(rx.Contents())
      ensures tx.Contents() == old(tx.Contents())[remaining..] && unreported == old(unreported) + remaining
    {
      tx.ByteQueuePull(remaining);
      unreported := unreported + remaining;
    }

    method Error()
      requires Valid() && 0 <= remaining <= |tx.Contents()|
      modifies this, rx, rx.buf, tx
      ensures Valid() && Abs() == Fail(old(Abs()))
    {
      DropRest();
      PushResultByte(0xFF);
      Finish();
    }

    /** `nack` is the acknowledge status bit, `received` the receive register. */
    method MI2CInterrupt(nack: bool, received: byte)
      requires Valid() && CanInterrupt(Abs(), nack)
      modifies this, rx, rx.buf, tx
      ensures Valid() && Abs() == Interrupt(old(Abs()), nack, received)
    {
      match state
      case Start => StartRequest();
      case Addr1Write =>
        bus := bus + [Tx(header.addr1)];
        state := if TenBit(header.addr1) then Addr2Write else WriteData;
      case Addr2Write =>
        if nack {
          Error();
        } else {
          bus := bus + [Tx(header.addr2)];
          state := WriteData;
        }
      case WriteData => if nack { Error(); } else { WriteByte(); }
      case StopWriteOnly =>
        if nack {
          Error();
        } else {
          PushResultByte(0);
          Finish();
        }
      case Restart =>
        bus := bus + [SendRestart];
        state := AddrRead;
      case AddrRead =>
        bus := bus + [Tx(ReadAddress(header.addr1))];
        state := AckAddrRead;
      case AckAddrRead =>
        if nack {
          Error();
        } else {
          remaining := header.readSize;
          bus := bus + [Receive];
          state := ReadData;
          PushResultByte(header.readSize);
        }
      case ReadData =>
        bus := bus + [Rx(received), if remaining == 1 then SendNack else SendAck];
        state := AckReadData;
        PushResultByte(received);
      case AckReadData =>
        remaining := remaining - 1;
        if remaining == 0 {
          Finish();
        } else {
          bus := bus + [Receive];
          state := ReadData;
        }
    }

    method StartRequest()
      requires Valid() && state == Start && |tx.Contents()| >= 4
      modifies this, tx
      ensures Valid() && Abs() == Interrupt(old(Abs()), false, 0)
    {
      var h := tx.ByteQueuePullToBuffer(4);
      header := Header(h[0], h[1], h[2], h[3]);
      unreported := unreported + 4;
      remaining := header.writeSize;
      bus := [SendStart];
      state := if remaining != 0 then Addr1Write else AddrRead;
    }

    method WriteByte()
      requires Valid() && state == WriteData && tx.Contents() != []
      modifies this, tx
      ensures Valid() && Abs() == Interrupt(old(Abs()), false, 0)
    {
      var b := tx.ByteQueuePullByte();
      bus := bus + [Tx(b)];
      unreported := unreported + 1;
      remaining := remaining - 1;
      if remaining == 0 {
        state := if header.readSize != 0 then Restart else StopWriteOnly;
      }
    }

    /**
     The piece of I2CTasks at position `task`, between two points where an
     interrupt can come in; `message` and `report` are what it sends to the host.
     */
    method I2CTasksStep(task: Task, ghost s: Sys) returns (next: Task, message: seq<Outcome>, report: seq<nat>)
      requires Valid() && s.task == task && s.dev == Abs() && CanTask(s) && 0 <= unreported
      modifies this, rx
      ensures Valid() && Abs() == TaskStepOf(s).dev && next == TaskStepOf(s).task
      ensures TaskStepOf(s).sent == s.sent + message && TaskStepOf(s).toHost == s.toHost + report
    {
      message, report := [], [];
      match task
      case Loop =>
        if ready == 0 {
          next := CheckReport;
        } else {
          var n := rx.ByteQueuePullByte();
          next := GotSize(n);
        }
      case GotSize(n) =>
        ready := ready - 1;
        next := Claimed(n);
      case Claimed(n) =>
        if n != 0xFF && n > 0 {
          var offset1, size1, offset2, size2 := rx.ByteQueuePeekMax(n as nat);
          message := [Read(rx.buf[offset1..offset1 + size1] + rx.buf[offset2..offset2 + size2])];
          next := Releasing(size1 + size2);
        } else {
          message := [if n == 0 then Written else Failed];
          next := Loop;
        }
      case Releasing(size) =>
        rx.ByteQueuePull(size);
        next := Loop;
      case CheckReport =>
        next := if unreported > TX_BUF_SIZE / 2 then Reporting else Loop;
      case Reporting =>
        report := [unreported];
        unreported := 0;
        next := Loop;
    }
  }
}
