/** The static state of boot_protocol.c and the code that changes it, proved against module BootProtocol. */
module BootProtocolState {
  import opened Bytes
  import opened Flash
  import opened IoioFile
  import opened ConfigPage
  import opened BootFeatures
  import opened BootProtocol

  class Receiver {
    const rxMsg: array<byte>
    var cursor: nat
    var remaining: nat
    var state: RxState
    var checksum: half
    var sent: seq<Reply>
    const file: ImageFile
    const features: Features
    const device: FlashDevice

    ghost predicate Shape()
      reads this, file, device
    {
      && rxMsg.Length == 17 && cursor <= 17 && rxMsg != file.buf
      && file.device == device && features.device == device && file.Valid()
    }

    ghost function Abs(): Proto
      requires Shape()
      reads this, rxMsg, file, file.buf, device, device.mem
    {
      Proto(state, rxMsg[..cursor], remaining, checksum, file.Abs(), sent)
    }

    ghost predicate Valid()
      reads this, rxMsg, file, file.buf, device, device.mem
    {
      Shape() && Abs().Valid()
    }

    constructor (device: FlashDevice)
      requires device.Valid()
      ensures Valid() && fresh(rxMsg) && fresh(file) && fresh(file.buf) && this.device == device
      ensures Abs() == Proto(WaitType, [], 1, 0, Init(device.Abs()), [])
    {
      rxMsg := new byte[17](_ => 0);
      cursor, remaining, state, checksum, sent := 0, 1, WaitType, 0, [];
      this.device := device;
      file := new ImageFile(device);
      features := new Features(device);
    }

    /** The state agrees with a result of the specification, as far as a refusal leaves it defined. */
    ghost predicate Agrees(outcome: Outcome, r: (Proto, Outcome))
      reads this, rxMsg, file, file.buf, device, device.mem
    {
      && Shape() && outcome == r.1
      && (outcome == Ready ==> Valid() && Abs() == r.0)
      && sent == r.0.sent && file.Abs() == r.0.loader
    }

    method FinishFile() returns (outcome: Outcome)
      requires Shape() && cursor == 0
      modifies this
      ensures Agrees(outcome, FileDone(old(Abs())))
    {
      var done := file.IOIOFileDone();
      if !done { return Refused; }
      sent := sent + [ChecksumReply(checksum)];
      state, remaining := WaitType, 1;
      return Ready;
    }

    /** Called when the arguments are complete; `message` is a copy of the receive buffer. */
    method Dispatch(message: seq<byte>) returns (outcome: Outcome)
      requires Shape() && message != [] && message[0] < MESSAGE_TYPE_LIMIT && |message| == 1 + ArgSize(message[0])
      requires message == rxMsg[..cursor]
      modifies this, file, device, device.mem
      ensures Agrees(outcome, MessageDone(old(Abs())))
    {
      state, remaining, cursor := WaitType, 1, 0;
      var kind, args := message[0], message[1..];
      if kind == HARD_RESET {
        outcome := if Le32(args) == IOIO_MAGIC then Rebooted else Refused;
      } else if kind == CHECK_INTERFACE {
        sent := sent + [InterfaceReply(args == INTERFACE_ID)];
        outcome := Ready;
      } else if kind == READ_FINGERPRINT {
        var fp := features.ReadFingerprintToBuffer();
        sent := sent + [FingerprintReply(fp)];
        outcome := Ready;
      } else if kind == WRITE_FINGERPRINT {
        var ok := features.WriteFingerprintPage(args);
        outcome := if ok then Ready else Refused;
      } else {
        outcome := StartFile(Le32(args));
      }
    }

    method StartFile(size: word) returns (outcome: Outcome)
      requires Shape() && cursor == 0
      modifies this, file, device, device.mem
      ensures var p := old(Abs());
              var (flash, ok) := EraseFingerprint(p.loader.flash);
              var f := p.(state := WaitFile, remaining := size, checksum := 0, loader := Init(flash));
              Agrees(outcome, if !ok then (p.(loader := p.loader.(flash := flash)), Refused)
                              else if size == 0 then FileDone(f) else (f, Ready))
    {
      state, remaining := WaitFile, size;
      var ok := features.EraseFingerprintPage();
      if !ok { return Refused; }
      checksum := 0;
      file.IOIOFileInit();
      if remaining > 0 { return Ready; }
      outcome := FinishFile();
    }

    /** Adds the bytes of a chunk to the running sum, which wraps at 16 bits. */
    method AddToChecksum(chunk: seq<byte>)
      modifies `checksum
      ensures checksum == (old(checksum) + Total(chunk)) % 0x1_0000
    {
      var i := 0;
      while i < |chunk|
        invariant 0 <= i <= |chunk|
        invariant (checksum + Total(chunk[i..])) % 0x1_0000 == (old(checksum) + Total(chunk)) % 0x1_0000
      {
        AddModulo(checksum, chunk[i], Total(chunk[i + 1..]));
        assert chunk[i..][1..] == chunk[i + 1..];
        checksum := (checksum + chunk[i]) % 0x1_0000;
        i := i + 1;
      }
    }

    method HandOn(chunk: seq<byte>) returns (ok: bool)
      requires Shape()
      modifies this`checksum, file, file.buf, device, device.mem
      ensures Shape() && ok == Feed(old(Abs()).loader, chunk).1
      ensures Abs() == old(Abs()).(checksum := (old(checksum) + Total(chunk)) % 0x1_0000,
                                   loader := Feed(old(Abs()).loader, chunk).0)
    {
      hide Total, Feed;
      AddToChecksum(chunk);
      ok := file.IOIOFileHandleBuffer(chunk);
    }

    /** A chunk that leaves something of the file to come. */
    method FilePart(chunk: seq<byte>) returns (outcome: Outcome)
      requires Valid() && state == WaitFile && chunk != [] && |chunk| < remaining
      modifies this, file, file.buf, device, device.mem
      ensures Agrees(outcome, Receive(old(Abs()), chunk))
    {
      FileStored(Abs(), chunk);
      hide Receive, Feed, Total;
      var ok := HandOn(chunk);
      if !ok { return Refused; }
      remaining := remaining - |chunk|;
      return Ready;
    }

    /** The last chunk of the file. */
    method FileRest(chunk: seq<byte>) returns (outcome: Outcome)
      requires Valid() && state == WaitFile && chunk != [] && |chunk| == remaining
      modifies this, file, file.buf, device, device.mem
      ensures Agrees(outcome, Receive(old(Abs()), chunk))
    {
      FileComplete(Abs(), chunk);
      hide Receive, Feed, Total;
      var ok := HandOn(chunk);
      if !ok { return Refused; }
      remaining := 0;
      outcome := FinishFile();
    }

    /** The type byte. */
    method TypeByte(kind: byte) returns (outcome: Outcome)
      requires Valid() && state == WaitType
      modifies this, rxMsg, file, device, device.mem
      ensures Agrees(outcome, Receive(old(Abs()), [kind]))
    {
      ghost var p := Abs();
      TypeReceived(p, kind);
      hide Receive, BootProtocol.Step, MessageDone;
      rxMsg[0] := kind;
      cursor, remaining := 1, 0;
      if kind >= MESSAGE_TYPE_LIMIT { return Refused; }
      state, remaining := WaitArgs, ArgSize(kind);
      assert rxMsg[..cursor] == [kind];
      if remaining > 0 { return Ready; }
      outcome := Dispatch([kind]);
    }

    method StoreArgs(chunk: seq<byte>)
      requires Shape() && cursor + |chunk| <= 17 && |chunk| <= remaining
      modifies this`cursor, this`remaining, rxMsg
      ensures Shape() && Abs() == old(Abs()).(msg := old(Abs()).msg + chunk, remaining := old(remaining) - |chunk|)
    {
      hide EraseFingerprint, Feed;
      forall i | 0 <= i < |chunk| { rxMsg[cursor + i] := chunk[i]; }
      cursor, remaining := cursor + |chunk|, remaining - |chunk|;
    }

    method ArgsChunk(chunk: seq<byte>) returns (outcome: Outcome)
      requires Valid() && state == WaitArgs && chunk != [] && |chunk| <= remaining
      modifies this, rxMsg, file, device, device.mem
      ensures Agrees(outcome, Receive(old(Abs()), chunk))
    {
      ghost var p := Abs();
      if |chunk| < remaining { ArgsStored(p, chunk); } else { ArgsComplete(p, chunk); }
      hide Receive, BootProtocol.Step, MessageDone;
      StoreArgs(chunk);
      if remaining > 0 { return Ready; }
      var message := rxMsg[..cursor];
      outcome := Dispatch(message);
    }

    /** Takes from the buffer what completes the current part, over and over. */
    method BootProtocolProcess(data: seq<byte>) returns (outcome: Outcome)
      requires Valid()
      modifies this, rxMsg, file, file.buf, device, device.mem
      ensures Agrees(outcome, Receive(old(Abs()), data))
    {
      var rest := data;
      while rest != []
        invariant Valid()
        invariant Receive(old(Abs()), data) == Receive(Abs(), rest)
        decreases |rest|
      {
        var n := if remaining < |rest| then remaining else |rest|;
        ReceiveSplit(Abs(), rest[..n], rest[n..]);
        assert rest == rest[..n] + rest[n..];
        if state == WaitFile {
          if n < remaining { outcome := FilePart(rest[..n]); } else { outcome := FileRest(rest[..n]); }
        } else if state == WaitType {
          assert rest[..n] == [rest[0]];
          outcome := TypeByte(rest[0]);
        } else {
          outcome := ArgsChunk(rest[..n]);
        }
        if outcome != Ready { return; }
        rest := rest[n..];
      }
      return Ready;
    }
  }
}
