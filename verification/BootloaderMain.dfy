/**
 The state of bootloader/main.c and the code that changes it, each piece proved
 against its step in module Bootloader.
 */
module BootloaderMain {
  import opened Bytes
  import opened Flash
  import opened IoioFile
  import opened ConfigPage
  import opened Bootloader

  class Main {
    var state: Phase
    var open: OpenFile
    const fingerprint: array<byte>
    var fingerprintSize: int
    const file: ImageFile
    const device: FlashDevice

    ghost var fpStream: seq<byte>
    ghost var stream: seq<byte>
    ghost var base: State
    ghost var last: Option<Download>

    ghost predicate Valid()
      reads this, file, device
    {
      && fingerprint.Length == FINGERPRINT_SIZE && fingerprint != file.buf
      && file.device == device && file.Valid()
      && -1 <= fingerprintSize <= FINGERPRINT_SIZE
    }

    ghost function Abs(): (s: Boot)
      requires Valid()
      reads this, fingerprint, file, file.buf, device, device.mem
      ensures s.Valid()
    {
      Boot(state, open, fingerprint[..], fingerprintSize, file.Abs(), fpStream, stream, base, last)
    }

    /** Power-up: only the flash has kept its contents. */
    constructor (device: FlashDevice)
      requires device.Valid()
      ensures Valid() && this.device == device && fresh(fingerprint) && fresh(file) && fresh(file.buf)
      ensures device.log == old(device.log) && Abs() == Factory(device.Abs())
    {
      state, open, fingerprintSize := WaitConnect, NoFile, 0;
      fingerprint := new byte[FINGERPRINT_SIZE](_ => 0);
      file := new ImageFile(device);
      this.device := device;
      fpStream, stream, base, last := [], [], device.Abs(), None;
      new;
      assert fingerprint[..] == seq(FINGERPRINT_SIZE, _ => 0);
    }

    /** Compares word by word and stops at the first difference. */
    method ValidateFingerprint() returns (ok: bool)
      requires Valid()
      ensures ok == Validates(device.mem[..], fingerprint[..])
    {
      var address, i: nat := FINGERPRINT_ADDRESS, 0;
      while i < FINGERPRINT_SIZE / 2
        invariant i <= 8 && address == FINGERPRINT_ADDRESS + 2 * i
        invariant forall k :: FP_WORD <= k < FP_WORD + i ==>
                    device.mem[k] == FingerprintWord(fingerprint[..], k - FP_WORD)
      {
        FingerprintIndex(i);
        var w := device.FlashReadWord(address);
        assert w == device.mem[..][FP_WORD + i];
        if fingerprint[2 * i] != w.lb { return false; }
        if fingerprint[2 * i + 1] != w.hb { return false; }
        if w.ub != 0 { return false; }
        address, i := address + 2, i + 1;
      }
      return true;
    }

    method EraseFingerprint() returns (ok: bool)
      requires Valid()
      modifies device, device.mem
      ensures Valid() && (device.Abs(), ok) == ErasePage(old(device.Abs()), CONFIG_PAGE)
    {
      ok := device.FlashErasePage(CONFIG_PAGE);
    }

    method WriteFingerprint() returns (ok: bool)
      requires Valid()
      modifies device, device.mem
      ensures Valid() && (device.Abs(), ok) == WriteFingerprintFrom(old(device.Abs()), fingerprint[..], 0)
    {
      var address, i: nat := FINGERPRINT_ADDRESS, 0;
      while i < FINGERPRINT_SIZE / 2
        invariant i <= 8 && address == FINGERPRINT_ADDRESS + 2 * i && Valid()
        invariant WriteFingerprintFrom(old(device.Abs()), fingerprint[..], 0)
               == WriteFingerprintFrom(device.Abs(), fingerprint[..], i)
      {
        FingerprintIndex(i);
        ok := device.FlashWriteWord(address, Word(fingerprint[2 * i], fingerprint[2 * i + 1], 0));
        if !ok { return false; }
        address, i := address + 2, i + 1;
      }
      return true;
    }

    /** A chunk of the fingerprint file, or with no data its end. */
    method FileRecvFingerprint(data: Option<seq<byte>>, status: nat)
      requires Valid()
      modifies this, fingerprint
      ensures Valid()
      ensures Abs() == match data
                       case Some(chunk) => RecvFingerprint(old(Abs()), chunk)
                       case None => FingerprintClosed(old(Abs()), status == 0)
    {
      match data
      case Some(chunk) =>
        if fingerprintSize != -1 && |chunk| <= FINGERPRINT_SIZE - fingerprintSize {
          forall i | 0 <= i < |chunk| { fingerprint[fingerprintSize + i] := chunk[i]; }
          fingerprintSize := fingerprintSize + |chunk|;
        } else {
          fingerprintSize := -1;
        }
        fpStream := fpStream + chunk;
      case None =>
        open := NoFile;
        if status == 0 && fingerprintSize == FINGERPRINT_SIZE {
          var same := ValidateFingerprint();
          state := if same then RunApp else FpFailed;
        } else {
          state := RunApp;
        }
    }

    /** A chunk of the image file, or with no data its end. */
    method FileRecvImage(data: Option<seq<byte>>, status: nat)
      requires Valid()
      modifies this, file, file.buf, device, device.mem
      ensures Valid()
      ensures Abs() == match data
                       case Some(chunk) => RecvImage(old(Abs()), chunk)
                       case None => ImageClosed(old(Abs()), status == 0)
    {
      match data
      case Some(chunk) =>
        var ok := file.IOIOFileHandleBuffer(chunk);
        if !ok { state := Error; }
        stream := stream + chunk;
      case None =>
        open := NoFile;
        var done := file.IOIOFileDone();
        if status == 0 && done {
          state := RecvImageDone;
          last := Some(Download(fingerprint[..], stream));
        } else {
          state := Error;
        }
    }

    /** One turn of the loop; `opens` is the answer of ADBFileRead if it is called. */
    method MainTurn(connected: bool, attached: bool, ready: bool, opens: bool)
      requires Valid()
      modifies this, file, device, device.mem
      ensures Valid() && Abs() == Iterate(old(Abs()), connected, attached, ready, opens)
    {
      if !connected { state, open := WaitConnect, NoFile; }
      match state
      case WaitConnect =>
        if connected { state := if attached then WaitAdbReady else RunApp; }
      case WaitAdbReady =>
        if ready { state := FindPath; }
      case FindPathDone =>
        fingerprintSize, fpStream := 0, [];
        state, open := WaitRecvFp, if opens then FingerprintFile else NoFile;
      case FpFailed =>
        state, open := AuthManager, if opens then PackagesFile else NoFile;
      case AuthPassed =>
        var ok := EraseFingerprint();
        if !ok {
          state := Error;
        } else {
          file.IOIOFileInit();
          stream, base := [], device.Abs();
          state, open := WaitRecvImage, if opens then ImageStream else NoFile;
        }
      case RecvImageDone =>
        var ok := WriteFingerprint();
        state := if ok then RunApp else Error;
      case RunApp => state := Application;
      case _ =>
    }
  }
}
