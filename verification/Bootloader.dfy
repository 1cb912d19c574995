/**
 The bootloader's upgrade protocol (bootloader/main.c): fetch a fingerprint, and
 if it differs from the one in flash, erase that one, download the image, and
 only then write the new one.

 A run is any sequence of events: turns of the main loop, callbacks of the one
 open file, and resets. Flash operations stop taking effect when `live` runs
 out, in the middle of anything, so a reset after that is a power cut between
 two flash operations.
 */
module Bootloader {
  import opened Bytes
  import opened Flash
  import opened IoioFile
  import opened ConfigPage

  datatype Phase =
    | WaitConnect | WaitAdbReady | FindPath | FindPathDone | AuthManager | AuthPassed
    | WaitRecvFp | FpFailed | WaitRecvImage | RecvImageDone | RunApp | Error
    | Application  // the application has been started and only a reset leads back

  /** The file being read, whose callbacks may come. */
  datatype OpenFile = NoFile | FingerprintFile | PackagesFile | ImageStream

  /** A fingerprint file and the image that was downloaded after it. */
  datatype Download = Download(fingerprint: Fingerprint, image: seq<byte>)

  /**
   The last four fields are a record that no step reads: what the fingerprint
   file and the image file have delivered, the flash when the image file was
   opened, and the last download that was completed.
   */
  datatype Boot = Boot(
    phase: Phase, open: OpenFile, fingerprint: Fingerprint, fingerprintSize: int, loader: Loader,
    fpStream: seq<byte>, stream: seq<byte>, base: State, last: Option<Download>)
  {
    function Mem(): seq<Word> { loader.flash.mem }

    predicate Valid() {
      loader.Valid() && -1 <= fingerprintSize <= FINGERPRINT_SIZE
    }
  }

  // ---------------------------------------------------------------- callbacks

  function RecvFingerprint(s: Boot, data: seq<byte>): (r: Boot)
    requires s.Valid()
    ensures r.Valid()
  {
    var s' := s.(fpStream := s.fpStream + data);
    if s.fingerprintSize != -1 && |data| <= FINGERPRINT_SIZE - s.fingerprintSize then
      var n := s.fingerprintSize;
      var fp := s.fingerprint[..n] + data + s.fingerprint[n + |data|..];
      s'.(fingerprint := fp, fingerprintSize := n + |data|)
    else s'.(fingerprintSize := -1)
  }

  function FingerprintClosed(s: Boot, clean: bool): (r: Boot)
    requires s.Valid()
    ensures r.Valid()
  {
    var s' := s.(open := NoFile);
    if clean && s.fingerprintSize == FINGERPRINT_SIZE then
      s'.(phase := if Validates(s.Mem(), s.fingerprint) then RunApp else FpFailed)
    else s'.(phase := RunApp)
  }

  function RecvImage(s: Boot, data: seq<byte>): (r: Boot)
    requires s.Valid()
    ensures r.Valid()
  {
    var (loader, ok) := Feed(s.loader, data);
    s.(loader := loader, phase := if ok then s.phase else Error, stream := s.stream + data)
  }

  function ImageClosed(s: Boot, clean: bool): (r: Boot)
    requires s.Valid()
    ensures r.Valid()
  {
    var s' := s.(open := NoFile);
    if clean && s.loader.Done() then
      s'.(phase := RecvImageDone, last := Some(Download(s.fingerprint, s.stream)))
    else s'.(phase := Error)
  }

  // ----------------------------------------------------------- the main loop

  /** One turn of the main loop. `opens` says whether a file could be opened. */
  function Iterate(s: Boot, connected: bool, attached: bool, ready: bool, opens: bool): (r: Boot)
    requires s.Valid()
    ensures r.Valid()
  {
    var s := if connected then s else s.(phase := WaitConnect, open := NoFile);
    match s.phase
    case WaitConnect =>
      if !connected then s else s.(phase := if attached then WaitAdbReady else RunApp)
    case WaitAdbReady => if ready then s.(phase := FindPath) else s
    case FindPathDone =>
      s.(fingerprintSize := 0, fpStream := [], open := if opens then FingerprintFile else NoFile, phase := WaitRecvFp)
    case FpFailed => s.(open := if opens then PackagesFile else NoFile, phase := AuthManager)
    case AuthPassed =>
      var (flash, ok) := ErasePage(s.loader.flash, CONFIG_PAGE);
      if !ok then s.(loader := s.loader.(flash := flash), phase := Error)
      else
        s.(loader := Init(flash), stream := [], base := flash, open := if opens then ImageStream else NoFile, phase := WaitRecvImage)
    case RecvImageDone =>
      var (flash, ok) := WriteFingerprintFrom(s.loader.flash, s.fingerprint, 0);
      s.(loader := s.loader.(flash := flash), phase := if ok then RunApp else Error)
    case RunApp => s.(phase := Application)
    case _ => s
  }

  datatype Event =
    | Turn(connected: bool, attached: bool, ready: bool, opens: bool)
    | ManagerFound
    | ManagerNotFound
    | FingerprintData(data: seq<byte>)
    | FingerprintEnd(clean: bool)
    | PackagesEnd(authentic: bool)
    | ImageData(data: seq<byte>)
    | ImageEnd(clean: bool)
    | Reset(live: nat)

  /** Callbacks come only from the open file; once the application runs, only a reset can happen. */
  predicate Enabled(s: Boot, e: Event) {
    match e
    case Reset(_) => true
    case _ => s.phase != Application && match e
      case FingerprintData(_) => s.open == FingerprintFile
      case FingerprintEnd(_) => s.open == FingerprintFile
      case PackagesEnd(_) => s.open == PackagesFile
      case ImageData(_) => s.open == ImageStream
      case ImageEnd(_) => s.open == ImageStream
      case _ => true
  }

  /** All memory but the flash is lost. */
  function AfterReset(s: Boot, live: nat): (r: Boot)
    requires s.Valid()
    ensures r.Valid()
  {
    Boot(WaitConnect, NoFile, seq(FINGERPRINT_SIZE, _ => 0), 0,
         Init(s.loader.flash.(live := live)), [], [], s.base, s.last)
  }

  function Step(s: Boot, e: Event): (r: Boot)
    requires s.Valid() && Enabled(s, e)
    ensures r.Valid()
  {
    match e
    case Turn(connected, attached, ready, opens) => Iterate(s, connected, attached, ready, opens)
    case ManagerFound => if s.phase == FindPath then s.(phase := FindPathDone) else s
    case ManagerNotFound => if s.phase == FindPath then s.(phase := RunApp) else s
    case FingerprintData(data) => RecvFingerprint(s, data)
    case FingerprintEnd(clean) => FingerprintClosed(s, clean)
    case PackagesEnd(authentic) => s.(open := NoFile, phase := if authentic then AuthPassed else RunApp)
    case ImageData(data) => RecvImage(s, data)
    case ImageEnd(clean) => ImageClosed(s, clean)
    case Reset(live) => AfterReset(s, live)
  }

  /** The states after each prefix of a run; events that are not enabled do not occur. */
  ghost predicate Reaches(s: Boot, events: seq<Event>, t: Boot)
    requires s.Valid()
    decreases |events|
  {
    if events == [] then t == s
    else Enabled(s, events[0]) && Reaches(Step(s, events[0]), events[1..], t)
  }

  // -------------------------------------------------------------- crash safety

  /** Every word of every block of the image is in flash, as the image means it. */
  predicate HoldsImage(mem: seq<Word>, image: seq<byte>) {
    && IsImage(image)
    && forall i :: 0 <= i < |mem| && TouchesPage(BlocksOf(image), i) ==> mem[i] == Overlay(BlocksOf(image), i)
  }

  /** Whatever fingerprint the flash would accept, the image downloaded with it is in flash. */
  ghost predicate Safe(mem: seq<Word>, last: Option<Download>)
    requires 2 * |mem| == APP_PROGSPACE_END
  {
    forall fp: Fingerprint :: Validates(mem, fp) ==>
      last.Some? && last.value.fingerprint == fp && HoldsImage(mem, last.value.image)
  }

  /** The fingerprint file has been read completely. */
  predicate FingerprintRead(s: Boot) {
    s.fingerprintSize == FINGERPRINT_SIZE && s.fpStream == s.fingerprint
  }

  ghost predicate Inv(s: Boot) {
    && s.Valid()
    && Safe(s.Mem(), s.last)
    && (s.open == FingerprintFile ==>
        && s.phase == WaitRecvFp
        && (s.fingerprintSize != -1 ==> s.fingerprint[..s.fingerprintSize] == s.fpStream))
    && (s.open == PackagesFile ==> s.phase == AuthManager)
    && (s.open == ImageStream ==> s.phase in {WaitRecvImage, Error} && Receiving(s))
    && (s.phase in {FpFailed, AuthManager, AuthPassed} ==> FingerprintRead(s))
    && (s.phase == RecvImageDone ==>
        && FingerprintRead(s) && FingerprintErased(s.Mem()) && HoldsImage(s.Mem(), s.stream)
        && s.last == Some(Download(s.fingerprint, s.stream)))
  }

  /** An image is being received: the old fingerprint is gone, and the loader has had exactly the stream. */
  ghost predicate Receiving(s: Boot)
    requires s.Valid()
  {
    && FingerprintRead(s) && FingerprintErased(s.Mem())
    && s.base.Valid() && Feed(Init(s.base), s.stream).0 == s.loader
  }

  lemma ErasedValidatesNothing(mem: seq<Word>, last: Option<Download>)
    requires 2 * |mem| == APP_PROGSPACE_END
    requires exists i :: FP_WORD <= i < FP_WORD + 8 && mem[i] == ERASED
    ensures Safe(mem, last)
  {
    var i :| FP_WORD <= i < FP_WORD + 8 && mem[i] == ERASED;
    assert mem[i].ub != 0;
  }

  lemma EraseConfigPage(flash: State)
    requires flash.Valid() && ErasePage(flash, CONFIG_PAGE).1
    ensures FingerprintErased(ErasePage(flash, CONFIG_PAGE).0.mem)
  {
  }

  lemma FingerprintUntouched(a: seq<Word>, b: seq<Word>)
    requires 2 * |a| == APP_PROGSPACE_END && SameOutsideApplication(a, b) && FingerprintErased(a)
    ensures FingerprintErased(b)
  {
    forall i | FP_WORD <= i < FP_WORD + 8 ensures b[i] == ERASED {
      assert 2 * i >= MAX_APP_ADDRESS;
    }
  }

  /** The image part of flash does not depend on the config page. */
  lemma HoldsFrame(a: seq<Word>, b: seq<Word>, image: seq<byte>)
    requires |a| == |b| && HoldsImage(a, image)
    requires forall i :: 0 <= i < |a| && 2 * i < MAX_APP_ADDRESS ==> a[i] == b[i]
    ensures HoldsImage(b, image)
  {
    var blocks := BlocksOf(image);
    forall i | 0 <= i < |b| && TouchesPage(blocks, i) ensures b[i] == Overlay(blocks, i) {
      var c :| c in blocks && PageNumber(c.address) == i / 512;
      assert InRange(c);
      ApplicationPage(c.address, i);
    }
  }

  lemma PartlyIsSafe(mem: seq<Word>, fp: Fingerprint, m: nat, last: Option<Download>)
    requires 2 * |mem| == APP_PROGSPACE_END && m <= 8 && Partly(mem, fp, m)
    requires last.Some? && last.value.fingerprint == fp && HoldsImage(mem, last.value.image)
    ensures Safe(mem, last)
  {
    if m < 8 {
      assert mem[FP_WORD + m] == ERASED;
      ErasedValidatesNothing(mem, last);
    } else {
      forall other: Fingerprint | Validates(mem, other) ensures other == fp {
        OneFingerprint(mem, fp, other);
      }
    }
  }

  /** A stream that the loader has taken to the end is an image, and the flash holds it. */
  lemma CompleteImage(s: Boot)
    requires s.Valid() && Receiving(s) && s.loader.Done()
    ensures HoldsImage(s.Mem(), s.stream)
  {
    var start := Init(s.base);
    if !Feed(start, s.stream).1 { FeedRefused(start, s.stream); }
    ImageAccepted(s.base, s.stream);
  }

  lemma StillReceiving(s: Boot, data: seq<byte>)
    requires s.Valid() && Receiving(s)
    ensures Receiving(RecvImage(s, data))
  {
    var start := Init(s.base);
    FeedSplit(start, s.stream, data);
    FeedConfined(s.loader, data);
    FingerprintUntouched(s.Mem(), Feed(s.loader, data).0.flash.mem);
    if !Feed(start, s.stream).1 {
      FeedRefused(start, s.stream);
      assert Feed(s.loader, data) == (s.loader, data == []);
    }
  }

  lemma StartReceiving(s: Boot, opens: bool)
    requires Inv(s) && s.phase == AuthPassed && ErasePage(s.loader.flash, CONFIG_PAGE).1
    ensures Receiving(Iterate(s, true, false, false, opens))
  {
    EraseConfigPage(s.loader.flash);
    var flash := ErasePage(s.loader.flash, CONFIG_PAGE).0;
    assert Feed(Init(flash), []).0 == Init(flash);
  }

  /** A step that touches neither the flash nor the fingerprint file, with no file open or awaited. */
  lemma QuietKeepsInv(s: Boot, phase: Phase)
    requires Inv(s) && phase in {WaitConnect, WaitAdbReady, FindPath, FindPathDone, RunApp, Error, Application}
    ensures Inv(s.(open := NoFile, phase := phase))
  {
  }

  lemma EraseKeepsInv(s: Boot, opens: bool)
    requires Inv(s) && s.phase == AuthPassed && ErasePage(s.loader.flash, CONFIG_PAGE).1
    ensures Inv(Iterate(s, true, false, false, opens))
  {
    StartReceiving(s, opens);
    var r := Iterate(s, true, false, false, opens);
    assert r.Mem()[FP_WORD] == ERASED;
    ErasedValidatesNothing(r.Mem(), r.last);
  }

  lemma WriteKeepsInv(s: Boot)
    requires Inv(s) && s.phase == RecvImageDone && s.open == NoFile
    ensures Inv(Iterate(s, true, false, false, false))
  {
    var r := Iterate(s, true, false, false, false);
    var m := WriteFingerprintEffect(s.loader.flash, s.fingerprint, 0);
    HoldsFrame(s.Mem(), r.Mem(), s.stream);
    PartlyIsSafe(r.Mem(), s.fingerprint, m, s.last);
  }

  lemma TurnKeepsInv(s: Boot, connected: bool, attached: bool, ready: bool, opens: bool)
    requires Inv(s)
    ensures Inv(Iterate(s, connected, attached, ready, opens))
  {
    QuietKeepsInv(s, WaitConnect);
    if connected {
      match s.phase
      case AuthPassed =>
        if ErasePage(s.loader.flash, CONFIG_PAGE).1 { EraseKeepsInv(s, opens); }
      case RecvImageDone => WriteKeepsInv(s);
      case RunApp => QuietKeepsInv(s, Application);
      case _ =>
    }
  }

  lemma FingerprintDataKeepsInv(s: Boot, data: seq<byte>)
    requires Inv(s) && s.open == FingerprintFile
    ensures Inv(RecvFingerprint(s, data))
  {
    var n := s.fingerprintSize;
    if n != -1 && |data| <= FINGERPRINT_SIZE - n {
      var r := RecvFingerprint(s, data);
      assert r.fingerprint[..n + |data|] == s.fingerprint[..n] + data;
    }
  }

  lemma ReceivedKeepsInv(s: Boot, r: Boot)
    requires Inv(s) && s.open == ImageStream && r.Valid() && Receiving(r)
    requires r == s.(loader := r.loader, phase := r.phase, stream := r.stream) && r.phase in {s.phase, Error}
    ensures Inv(r)
  {
    assert r.Mem()[FP_WORD] == ERASED;
    ErasedValidatesNothing(r.Mem(), r.last);
  }

  lemma ImageDataKeepsInv(s: Boot, data: seq<byte>)
    requires Inv(s) && s.open == ImageStream
    ensures Inv(RecvImage(s, data))
  {
    StillReceiving(s, data);
    ReceivedKeepsInv(s, RecvImage(s, data));
  }

  lemma ImageEndKeepsInv(s: Boot, clean: bool)
    requires Inv(s) && s.open == ImageStream
    ensures Inv(ImageClosed(s, clean))
  {
    assert s.Mem()[FP_WORD] == ERASED;
    ErasedValidatesNothing(s.Mem(), ImageClosed(s, clean).last);
    if s.loader.Done() { CompleteImage(s); }
  }

  lemma FingerprintEndKeepsInv(s: Boot, clean: bool)
    requires Inv(s) && s.open == FingerprintFile
    ensures Inv(FingerprintClosed(s, clean))
  {
    if s.fingerprintSize == FINGERPRINT_SIZE {
      assert s.fingerprint[..FINGERPRINT_SIZE] == s.fingerprint;
    }
  }

  lemma StepKeepsInv(s: Boot, e: Event)
    requires Inv(s) && Enabled(s, e)
    ensures Inv(Step(s, e))
  {
    match e
    case Turn(connected, attached, ready, opens) => TurnKeepsInv(s, connected, attached, ready, opens);
    case FingerprintData(data) => FingerprintDataKeepsInv(s, data);
    case FingerprintEnd(clean) => FingerprintEndKeepsInv(s, clean);
    case ImageData(data) => ImageDataKeepsInv(s, data);
    case ImageEnd(clean) => ImageEndKeepsInv(s, clean);
    case _ =>
  }

  /** A board as it leaves the factory: no fingerprint. */
  function Factory(flash: State): (s: Boot)
    requires flash.Valid()
  {
    Boot(WaitConnect, NoFile, seq(FINGERPRINT_SIZE, _ => 0), 0, Init(flash), [], [], flash, None)
  }

  lemma {:induction false} RunKeepsInv(s: Boot, events: seq<Event>, t: Boot)
    requires Inv(s) && Reaches(s, events, t)
    ensures Inv(t)
    decreases |events|
  {
    if events != [] {
      StepKeepsInv(s, events[0]);
      RunKeepsInv(Step(s, events[0]), events[1..], t);
    }
  }

  /**
   Crash safety: in every state of every run, resets and power cuts included,
   a fingerprint that the flash accepts is that of the last completed download,
   and the flash holds that download's image.
   */
  lemma CrashSafety(flash: State, events: seq<Event>, t: Boot, fp: Fingerprint)
    requires flash.Valid() && FingerprintErased(flash.mem)
    requires Reaches(Factory(flash), events, t) && t.Valid() && Validates(t.Mem(), fp)
    ensures t.last.Some? && t.last.value.fingerprint == fp && HoldsImage(t.Mem(), t.last.value.image)
  {
    assert flash.mem[FP_WORD] == ERASED;
    ErasedValidatesNothing(flash.mem, None);
    RunKeepsInv(Factory(flash), events, t);
  }

  /** Once an image is in flash, a block whose bits no other block clears reads back as it was sent. */
  lemma HeldBlockReadsBack(mem: seq<Word>, image: seq<byte>, b: Block, j: nat)
    requires 2 * |mem| == APP_PROGSPACE_END && HoldsImage(mem, image) && b in BlocksOf(image) && j < 64
    requires forall c :: c in BlocksOf(image) && c.address == b.address ==> c == b
    ensures b.address / 2 + j < |mem| && mem[b.address / 2 + j] == RowWords(b.row)[j]
  {
    assert Meaning(mem, BlocksOf(image)) == mem;
    WordReadsBack(mem, BlocksOf(image), b, j);
    AndSelf(RowWords(b.row)[j].lb); AndSelf(RowWords(b.row)[j].hb); AndSelf(RowWords(b.row)[j].ub);
  }

  // ------------------------------------------------------------------ progress

  lemma {:induction false} ReachesNext(s: Boot, events: seq<Event>, t: Boot, e: Event)
    requires s.Valid() && Reaches(s, events, t) && t.Valid() && Enabled(t, e)
    ensures Reaches(s, events + [e], Step(t, e))
    decreases |events|
  {
    if events == [] {
      assert [] + [e] == [e] && [e][1..] == [];
    } else {
      assert (events + [e])[1..] == events[1..] + [e];
      ReachesNext(Step(s, events[0]), events[1..], t, e);
    }
  }

  function ImageEvents(buffers: seq<seq<byte>>): seq<Event> {
    seq(|buffers|, i requires 0 <= i < |buffers| => ImageData(buffers[i]))
  }

  /** What a phone does that has the manager, the fingerprint file, and the image in some number of buffers. */
  function SessionStart(fp: Fingerprint): seq<Event> {
    [Turn(true, true, true, true), Turn(true, true, true, true), ManagerFound, Turn(true, true, true, true),
     FingerprintData(fp), FingerprintEnd(true)]
  }

  function SessionEnd(buffers: seq<seq<byte>>): seq<Event> {
    [Turn(true, true, true, true), PackagesEnd(true), Turn(true, true, true, true)]
    + ImageEvents(buffers)
    + [ImageEnd(true), Turn(true, true, true, true)]
  }

  lemma FingerprintSession(s: Boot, fp: Fingerprint) returns (t: Boot)
    requires s.Valid() && s.phase == WaitConnect
    ensures Reaches(s, SessionStart(fp), t) && t.Valid() && t.fingerprint == fp
    ensures t.loader == s.loader && t.phase == if Validates(s.Mem(), fp) then RunApp else FpFailed
  {
    hide Validates, WriteFingerprintFrom, ErasedPage;
    var turn := Turn(true, true, true, true);
    var s1 := Step(s, turn);
    var s2 := Step(s1, turn);
    var s3 := Step(s2, ManagerFound);
    var s4 := Step(s3, turn);
    var s5 := Step(s4, FingerprintData(fp));
    assert s5.fingerprint == fp;
    t := Step(s5, FingerprintEnd(true));
    var run := [] + [turn];
    ReachesNext(s, [], s, turn);
    ReachesNext(s, run, s1, turn);
    ReachesNext(s, run + [turn], s2, ManagerFound);
    ReachesNext(s, run + [turn] + [ManagerFound], s3, turn);
    ReachesNext(s, run + [turn] + [ManagerFound] + [turn], s4, FingerprintData(fp));
    ReachesNext(s, run + [turn] + [ManagerFound] + [turn] + [FingerprintData(fp)], s5, FingerprintEnd(true));
    assert run + [turn] + [ManagerFound] + [turn] + [FingerprintData(fp)] + [FingerprintEnd(true)] == SessionStart(fp);
  }

  /** A fingerprint that the flash already accepts: the application runs and the flash is not touched. */
  lemma NothingToDo(s: Boot, fp: Fingerprint) returns (t: Boot)
    requires s.Valid() && s.phase == WaitConnect && Validates(s.Mem(), fp)
    ensures Reaches(s, SessionStart(fp), t) && t.phase == RunApp && t.loader.flash == s.loader.flash
  {
    t := FingerprintSession(s, fp);
  }

  lemma ImageReceived(s: Boot, data: seq<byte>) returns (t: Boot)
    requires s.Valid() && s.open == ImageStream && s.phase == WaitRecvImage && Feed(s.loader, data).1
    ensures Enabled(s, ImageData(data)) && t == Step(s, ImageData(data)) && t.Valid()
    ensures t == s.(loader := Feed(s.loader, data).0, stream := s.stream + data)
  {
    hide Feed;
    t := Step(s, ImageData(data));
  }

  lemma {:induction false} DeliverImage(s: Boot, buffers: seq<seq<byte>>) returns (t: Boot)
    requires s.Valid() && s.open == ImageStream && s.phase == WaitRecvImage
    requires Feed(s.loader, Joined(buffers)).1
    ensures Reaches(s, ImageEvents(buffers), t)
    ensures t == s.(loader := Feed(s.loader, Joined(buffers)).0, stream := s.stream + Joined(buffers))
    decreases |buffers|
  {
    if buffers == [] {
      t := s;
      assert s.stream + [] == s.stream;
    } else {
      var first, rest := buffers[0], Joined(buffers[1..]);
      FeedSplit(s.loader, first, rest);
      var s' := ImageReceived(s, first);
      hide RecvImage, Feed, Step, Enabled;
      t := DeliverImage(s', buffers[1..]);
      assert ImageEvents(buffers)[0] == ImageData(first);
      assert ImageEvents(buffers)[1..] == ImageEvents(buffers[1..]);
      ConcatAssoc(s.stream, first, rest);
    }
  }

  lemma {:induction false} ReachesTrans(s: Boot, a: seq<Event>, m: Boot, b: seq<Event>, t: Boot)
    requires s.Valid() && Reaches(s, a, m) && m.Valid() && Reaches(m, b, t)
    ensures Reaches(s, a + b, t)
    decreases |a|
  {
    if a == [] {
      assert a + b == b;
    } else {
      assert (a + b)[1..] == a[1..] + b;
      ReachesTrans(Step(s, a[0]), a[1..], m, b, t);
    }
  }

  lemma AuthSession(s: Boot) returns (t: Boot)
    requires s.Valid() && s.phase == FpFailed && s.loader.flash.live >= 1
    ensures var turn := Turn(true, true, true, true);
            Reaches(s, [turn, PackagesEnd(true), turn], t)
    ensures var flash := ErasePage(s.loader.flash, CONFIG_PAGE).0;
            t.loader == Init(flash) && t.stream == [] && flash.live == s.loader.flash.live - 1
    ensures t.Valid() && t.open == ImageStream && t.phase == WaitRecvImage && t.fingerprint == s.fingerprint
    ensures FingerprintErased(t.Mem())
  {
    var turn := Turn(true, true, true, true);
    var s1 := Step(s, turn);
    var s2 := Step(s1, PackagesEnd(true));
    t := Step(s2, turn);
    EraseConfigPage(s.loader.flash);
    assert [turn, PackagesEnd(true), turn][1..] == [PackagesEnd(true), turn];
    assert [PackagesEnd(true), turn][1..] == [turn];
    assert Reaches(s2, [turn], t);
    assert Reaches(s1, [PackagesEnd(true), turn], t);
  }

  lemma FinishSession(s: Boot, base: State, image: seq<byte>) returns (t: Boot)
    requires s.Valid() && s.open == ImageStream && s.phase == WaitRecvImage && s.stream == image
    requires base.Valid() && FingerprintErased(base.mem) && SameOutsideApplication(base.mem, s.Mem())
    requires IsImage(image) && Loaded(s.loader, base, BlocksOf(image)) && s.loader.flash.live >= 8
    ensures Reaches(s, [ImageEnd(true), Turn(true, true, true, true)], t) && t.Valid() && t.phase == RunApp
    ensures Validates(t.Mem(), s.fingerprint) && HoldsImage(t.Mem(), image)
    ensures t.last == Some(Download(s.fingerprint, image))
  {
    var turn := Turn(true, true, true, true);
    var s1 := Step(s, ImageEnd(true));
    InstallEffect(base, s.loader.flash, s.loader, s.fingerprint, image);
    hide Loaded, IsImage, BlocksOf, WriteFingerprintFrom, Validates, HoldsImage, SameOutsideApplication, FingerprintErased;
    t := Step(s1, turn);
    assert [ImageEnd(true), turn][1..] == [turn];
    assert Reaches(s1, [turn], t);
  }

  lemma ImageSession(s: Boot, buffers: seq<seq<byte>>) returns (t: Boot)
    requires s.Valid() && s.phase == FpFailed && IsImage(Joined(buffers))
    requires s.loader.flash.live >= 1 + |Operations(BlocksOf(Joined(buffers)))| + 8
    ensures Reaches(s, SessionEnd(buffers), t) && t.Valid() && t.phase == RunApp
    ensures Validates(t.Mem(), s.fingerprint) && HoldsImage(t.Mem(), Joined(buffers))
    ensures t.last == Some(Download(s.fingerprint, Joined(buffers)))
  {
    var turn, image := Turn(true, true, true, true), Joined(buffers);
    var auth := [turn, PackagesEnd(true), turn];
    var s1 := AuthSession(s);
    var base := s1.loader.flash;
    ImageAccepted(base, image);
    FeedConfined(s1.loader, image);
    var s2 := DeliverImage(s1, buffers);
    assert [] + image == image;
    t := FinishSession(s2, base, image);
    ReachesTrans(s, auth, s1, ImageEvents(buffers), s2);
    ReachesTrans(s, auth + ImageEvents(buffers), s2, [ImageEnd(true), turn], t);
  }

  lemma InstallEffect(base: State, flash: State, loader: Loader, fp: Fingerprint, image: seq<byte>)
    requires base.Valid() && flash.Valid() && FingerprintErased(base.mem) && IsImage(image) && loader.flash == flash
    requires Loaded(loader, base, BlocksOf(image)) && flash.live >= 8
    requires SameOutsideApplication(base.mem, flash.mem)
    ensures var (flash', ok) := WriteFingerprintFrom(flash, fp, 0);
            ok && Validates(flash'.mem, fp) && HoldsImage(flash'.mem, image)
  {
    FingerprintUntouched(base.mem, flash.mem);
    var m := WriteFingerprintEffect(flash, fp, 0);
    HoldsFrame(flash.mem, WriteFingerprintFrom(flash, fp, 0).0.mem, image);
  }

  /**
   A session with a new fingerprint and a good image, delivered in any buffers
   to a flash that holds out, installs both, whatever was in flash before.
   */
  lemma UpgradeSucceeds(s: Boot, fp: Fingerprint, buffers: seq<seq<byte>>) returns (t: Boot)
    requires s.Valid() && s.phase == WaitConnect && !Validates(s.Mem(), fp)
    requires IsImage(Joined(buffers))
    requires s.loader.flash.live >= 1 + |Operations(BlocksOf(Joined(buffers)))| + 8
    ensures Reaches(s, SessionStart(fp) + SessionEnd(buffers), t) && t.Valid() && t.phase == RunApp
    ensures Validates(t.Mem(), fp) && HoldsImage(t.Mem(), Joined(buffers))
  {
    var m := FingerprintSession(s, fp);
    t := ImageSession(m, buffers);
    ReachesTrans(s, SessionStart(fp), m, SessionEnd(buffers), t);
  }
}
