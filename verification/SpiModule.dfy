/**
 The state of one SPI module (app_layer_v1/spi.c) over two ring buffers, each
 piece of code proved against its step in module Spi.
 */
module SpiModule {
  import opened Bytes
  import opened ByteQueue
  import opened Spi

  class Module {
    var inProgress: bool
    var unreported: int
    var dest: byte
    var totalTx: byte
    var dataTx: byte
    var trimRx: byte
    var totalRx: byte
    var rxSize: byte
    var canSend: byte
    const rx: Queue
    var ready: int
    const tx: Queue
    var enabled: bool

    ghost var overflow: bool
    ghost var inFlight: int
    ghost var out: seq<byte>
    ghost var got: seq<byte>

    ghost predicate Valid()
      reads this, rx, tx
    {
      && rx.Valid() && tx.Valid() && rx != tx && rx.buf != tx.buf
      && rx.buf.Length == RX_BUF_SIZE && tx.buf.Length == TX_BUF_SIZE
    }

    ghost function Abs(): Dev
      requires Valid()
      reads this, rx, rx.buf, tx, tx.buf
    {
      Dev(inProgress, unreported, dest, totalTx, dataTx, trimRx, totalRx, rxSize, canSend, rx.Contents(), ready,
          tx.Contents(), enabled, overflow, inFlight, out, got)
    }

    /** SPIConfigMaster with a clock. */
    constructor ()
      ensures Valid() && Abs() == Configured().dev
    {
      inProgress, unreported, ready, enabled := false, TX_BUF_SIZE, 0, false;
      dest, totalTx, dataTx, trimRx, totalRx, rxSize, canSend := 0, 0, 0, 0, 0, 0, 0;
      rx := new Queue(RX_BUF_SIZE);
      tx := new Queue(TX_BUF_SIZE);
      overflow, inFlight, out, got := false, 0, [], [];
    }

    method PushReceived(b: byte)
      requires Valid()
      modifies this`overflow, rx, rx.buf
      ensures Valid() && Abs() == PushRx(old(Abs()), b)
    {
      var dropped := rx.ByteQueuePushByte(b);
      if dropped { overflow := true; }
    }

    method PushByte(b: byte)
      requires Valid()
      modifies this`overflow, tx, tx.buf
      ensures Valid() && Abs() == PushTx(old(Abs()), [b])
    {
      var dropped := tx.ByteQueuePushByte(b);
      if dropped { overflow := true; }
    }

    method PushData(data: seq<byte>)
      requires Valid()
      modifies this`overflow, tx, tx.buf
      ensures Valid() && Abs() == PushTx(old(Abs()), data)
    {
      var dropped := tx.ByteQueuePushBuffer(data);
      if dropped { overflow := true; }
      assert data == [] ==> old(tx.Contents()) + data == old(tx.Contents());
    }

    method SPITransmit(r: Request)
      requires Valid()
      modifies this, tx, tx.buf
      ensures Valid() && Abs() == Transmit(old(Abs()), r)
    {
      PushByte(r.dest);
      PushByte(r.total);
      PushByte(|r.data|);
      PushByte(r.trim);
      PushData(r.data);
      enabled := true;
    }

    /** Pulls the packet header, byte by byte. */
    method PullHeader() returns (b0: byte, b1: byte, b2: byte, b3: byte)
      requires Valid() && |tx.Contents()| >= 4
      modifies tx
      ensures Valid() && rx.Contents() == old(rx.Contents()) && tx.Contents() == old(tx.Contents()[4..])
      ensures var t := old(tx.Contents()); b0 == t[0] && b1 == t[1] && b2 == t[2] && b3 == t[3]
    {
      b0 := tx.ByteQueuePullByte();
      b1 := tx.ByteQueuePullByte();
      b2 := tx.ByteQueuePullByte();
      b3 := tx.ByteQueuePullByte();
    }

    method LoadHeader()
      requires Valid() && |tx.Contents()| >= 4
      modifies this, tx
      ensures Valid() && rx.Contents() == old(rx.Contents()) && tx.Contents() == old(tx.Contents()[4..])
      ensures var t := old(tx.Contents());
              && dest == t[0] && totalTx == totalRx == t[1] && dataTx == t[2] && trimRx == t[3]
              && rxSize == Minus(t[1], t[3])
      ensures canSend == FIFO_SIZE && inProgress && out == [] && got == [] && unreported == old(unreported) + 4
      ensures unchanged(`ready, `enabled, `overflow, `inFlight)
    {
      dest, totalTx, dataTx, trimRx := PullHeader();
      unreported := unreported + 4;
      ResetCounters();
    }

    method ResetCounters()
      modifies this`totalRx, this`canSend, this`rxSize, this`inProgress, this`out, this`got
      ensures totalRx == totalTx && canSend == FIFO_SIZE && rxSize == Minus(totalTx, trimRx)
      ensures inProgress && out == [] && got == []
    {
      totalRx := totalTx;
      canSend := FIFO_SIZE;
      rxSize := Minus(totalRx, trimRx);
      inProgress, out, got := true, [], [];
    }

    method StartPacket()
      requires Valid() && |tx.Contents()| >= 4
      modifies this, rx, rx.buf, tx
      ensures Valid() && Abs() == Begin(old(Abs()))
    {
      LoadHeader();
      if rxSize > 0 {
        PushReceived(dest);
        PushReceived(rxSize);
      }
    }

    method ReadOne(b: byte)
      requires Valid()
      modifies this, rx, rx.buf
      ensures Valid() && Abs() == ReadByte(old(Abs()), b)
    {
      if trimRx != 0 {
        trimRx := trimRx - 1;
      } else {
        PushReceived(b);
      }
      totalRx := Decrement(totalRx);
      canSend := Increment(canSend);
      inFlight := inFlight - 1;
      got := got + [b];
    }

    /** The next byte of the data, or 0xFF behind its end. */
    method NextByte() returns (b: byte)
      requires Valid() && (dataTx > 0 ==> tx.Contents() != [])
      modifies this`dataTx, this`unreported, tx
      ensures Valid() && rx.Contents() == old(rx.Contents())
      ensures old(dataTx) == 0 ==> b == 0xFF && dataTx == 0 && tx.Contents() == old(tx.Contents())
                                   && unreported == old(unreported)
      ensures old(dataTx) > 0 ==> b == old(tx.Contents())[0] && dataTx == old(dataTx) - 1
                                  && tx.Contents() == old(tx.Contents())[1..] && unreported == old(unreported) + 1
    {
      b := 0xFF;
      if dataTx > 0 {
        b := tx.ByteQueuePullByte();
        dataTx := dataTx - 1;
        unreported := unreported + 1;
      }
    }

    method WriteOne()
      requires Valid() && (dataTx > 0 ==> tx.Contents() != [])
      modifies this, tx
      ensures Valid() && Abs() == WriteByte(old(Abs()))
    {
      hide Decrement;
      var b := NextByte();
      CountWritten(b);
    }

    method CountWritten(b: byte)
      modifies this`out, this`inFlight, this`totalTx, this`canSend
      ensures out == old(out) + [b] && inFlight == old(inFlight) + 1
      ensures totalTx == Decrement(old(totalTx)) && canSend == Decrement(old(canSend))
    {
      out := out + [b];
      inFlight := inFlight + 1;
      totalTx := Decrement(totalTx);
      canSend := Decrement(canSend);
    }

    /** Empties the receive FIFO. */
    method ReadFifo(arrived: seq<byte>)
      requires Valid()
      modifies this, rx, rx.buf
      ensures Valid() && Abs() == ReadAll(old(Abs()), arrived)
    {
      var i := 0;
      assert arrived[0..] == arrived;
      while i < |arrived|
        invariant Valid() && 0 <= i <= |arrived|
        invariant ReadAll(Abs(), arrived[i..]) == ReadAll(old(Abs()), arrived)
      {
        assert arrived[i..][1..] == arrived[i + 1..];
        ReadOne(arrived[i]);
        i := i + 1;
      }
    }

    /** Fills the transmit FIFO. */
    method WriteFifo()
      requires Valid() && CanWrite(Abs(), ToWrite(Abs()))
      modifies this, tx
      ensures Valid() && Abs() == WriteMany(old(Abs()), ToWrite(old(Abs())))
    {
      var left: nat := totalTx;
      if left > canSend as nat { left := canSend as nat; }
      ghost var goal := WriteMany(Abs(), left);
      while left > 0
        invariant Valid() && CanWrite(Abs(), left) && WriteMany(Abs(), left) == goal
      {
        WriteOne();
        left := left - 1;
      }
    }

    method FinishPacket()
      requires Valid()
      modifies this
      ensures Valid() && Abs() == Finish(old(Abs()))
    {
      if rxSize != 0 { ready := ready + 1; }
      inProgress := false;
      enabled := tx.size > 0;
    }

    /** `arrived` is what the receive FIFO holds. */
    method SPIInterrupt(arrived: seq<byte>)
      requires Valid() && CanInterrupt(Abs(), arrived)
      modifies this, rx, rx.buf, tx
      ensures Valid() && Abs() == Interrupt(old(Abs()), arrived)
    {
      if !inProgress {
        StartPacket();
        WriteFifo();
      } else {
        ReadFifo(arrived);
        if totalRx == 0 {
          FinishPacket();
        } else {
          WriteFifo();
        }
      }
    }

    /**
     The piece of SPITasks at position `task`, between two points where an
     interrupt can come in; `message` and `report` are what it sends to the host.
     */
    method SPITasksStep(task: Task, ghost s: Sys) returns (next: Task, message: seq<Report>, report: seq<nat>)
      requires Valid() && s.task == task && s.dev == Abs() && CanTask(s) && 0 <= unreported
      modifies this, rx
      ensures Valid() && Abs() == TaskStepOf(s).dev && next == TaskStepOf(s).task
      ensures TaskStepOf(s).sent == s.sent + message && TaskStepOf(s).toHost == s.toHost + report
    {
      message, report := [], [];
      match task
      case Loop =>
        if ready == 0 {
          next := CheckReport;
        } else {
          var b := rx.ByteQueuePullByte();
          next := GotDest(Six(b));
        }
      case GotDest(dest) =>
        var b := rx.ByteQueuePullByte();
        next := GotSize(dest, Six(b as int - 1));
      case GotSize(dest, size) =>
        var offset1, size1, offset2, size2 := rx.ByteQueuePeekMax(size + 1);
        message := [Report(dest, rx.buf[offset1..offset1 + size1] + rx.buf[offset2..offset2 + size2])];
        next := Releasing(size1 + size2);
      case Releasing(length) =>
        rx.ByteQueuePull(length);
        next := Released;
      case Released =>
        ready := ready - 1;
        next := Loop;
      case CheckReport =>
        next := if unreported > TX_BUF_SIZE / 2 then Reporting else Loop;
      case Reporting =>
        report := [unreported];
        unreported := 0;
        next := Loop;
    }
  }
}
