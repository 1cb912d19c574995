/**
 The state of one UART (app_layer_v1/uart.c) over two ring buffers, each piece of
 code proved against its step in module Uart.
 */
module UartModule {
  import opened Bytes
  import opened ByteQueue
  import opened Uart

  class Module {
    var unreported: int
    const rx: Queue
    const tx: Queue
    var enabled: bool

    ghost var line: seq<byte>
    ghost var kept: seq<byte>
    ghost var dropped: bool
    ghost var overflow: bool

    ghost predicate Valid()
      reads this, rx, tx
    {
      && rx.Valid() && tx.Valid() && rx != tx && rx.buf != tx.buf
      && rx.buf.Length == RX_BUF_SIZE && tx.buf.Length == TX_BUF_SIZE
    }

    ghost function Abs(): Dev
      requires Valid()
      reads this, rx, rx.buf, tx, tx.buf
    {
      Dev(unreported, rx.Contents(), tx.Contents(), enabled, line, kept, dropped, overflow)
    }

    /** UARTConfig with a rate. */
    constructor ()
      ensures Valid() && Abs() == Configured().dev
    {
      unreported, enabled := TX_BUF_SIZE, false;
      rx := new Queue(RX_BUF_SIZE);
      tx := new Queue(TX_BUF_SIZE);
      line, kept, dropped, overflow := [], [], false, false;
    }

    /** `room` is how many bytes the transmitter takes before it is full. */
    method TXInterrupt(room: nat)
      requires Valid()
      modifies this, tx
      ensures Valid() && Abs() == Uart.TXInterrupt(old(Abs()), room)
    {
      var left := room;
      ghost var goal := Uart.TXInterrupt(Abs(), room);
      while tx.size != 0 && left != 0
        invariant Valid() && Uart.TXInterrupt(Abs(), left) == goal
        decreases left
      {
        var b := tx.ByteQueuePullByte();
        line := line + [b];
        unreported := unreported + 1;
        left := left - 1;
      }
      enabled := tx.size != 0;
    }

    method AcceptOne(a: Arrival)
      requires Valid()
      modifies this`kept, this`dropped, rx, rx.buf
      ensures Valid() && Abs() == Accept(old(Abs()), a)
    {
      if a.noError {
        var full := rx.ByteQueuePushByte(a.b);
        if full { dropped := true; } else { kept := kept + [a.b]; }
      }
    }

    /** `arrivals` is what the receiver holds. */
    method RXInterrupt(arrivals: seq<Arrival>)
      requires Valid()
      modifies this`kept, this`dropped, rx, rx.buf
      ensures Valid() && Abs() == Uart.RXInterrupt(old(Abs()), arrivals)
    {
      var i := 0;
      assert arrivals[0..] == arrivals;
      while i < |arrivals|
        invariant Valid() && 0 <= i <= |arrivals|
        invariant Uart.RXInterrupt(Abs(), arrivals[i..]) == Uart.RXInterrupt(old(Abs()), arrivals)
      {
        assert arrivals[i..][1..] == arrivals[i + 1..];
        AcceptOne(arrivals[i]);
        i := i + 1;
      }
    }

    method UARTTransmit(data: seq<byte>)
      requires Valid()
      modifies this`enabled, this`overflow, tx, tx.buf
      ensures Valid() && Abs() == Transmit(old(Abs()), data)
    {
      var full := tx.ByteQueuePushBuffer(data);
      if full { overflow := true; }
      enabled := true;
      assert data == [] ==> old(tx.Contents()) + data == old(tx.Contents());
    }

    /**
     The piece of UARTTasks at position `task`, between two points where an interrupt
     can come in; `message` and `report` are what it sends to the host.
     */
    method UARTTasksStep(task: Task, ghost s: Sys) returns (next: Task, message: seq<seq<byte>>, report: seq<nat>)
      requires Valid() && s.task == task && s.dev == Abs() && CanTask(s) && 0 <= unreported
      modifies this`unreported, rx
      ensures Valid() && Abs() == TaskStepOf(s).dev && next == TaskStepOf(s).task
      ensures TaskStepOf(s).sent == s.sent + message && TaskStepOf(s).toHost == s.toHost + report
    {
      message, report := [], [];
      match task
      case Loop =>
        var offset1, size1, offset2, size2 := rx.ByteQueuePeekMax(MESSAGE_SIZE);
        next := if size1 == 0 then CheckReport else Peeked(size1 + size2);
      case Peeked(length) =>
        var offset1, size1, offset2, size2 := rx.ByteQueuePeekMax(length);
        message := [rx.buf[offset1..offset1 + size1] + rx.buf[offset2..offset2 + size2]];
        next := Releasing(length);
      case Releasing(length) =>
        rx.ByteQueuePull(length);
        next := CheckReport;
      case CheckReport =>
        next := if unreported > TX_BUF_SIZE / 2 then Reporting else Loop;
      case Reporting =>
        report := [unreported];
        unreported := 0;
        next := Loop;
    }
  }
}
