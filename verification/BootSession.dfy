/**
 A phone visits the bootloader: what it has to offer, and what the upgrade protocol
 of bootloader/main.c makes of it, stated without the states of the main loop.
 */
module BootSession {
  import opened Bytes
  import opened Flash
  import opened IoioFile
  import opened ConfigPage
  import opened Bootloader
  import Auth
  import AuthStop

  /** The files come in buffers and end cleanly or not; a phone without the manager has none of them. */
  datatype Visit = Visit(
    attached: bool, found: bool, fingerprintFile: seq<seq<byte>>, fingerprintClean: bool,
    packages: seq<string>, packagesClean: bool, imageFile: seq<seq<byte>>, imageClean: bool)

  /** The manager's packages file ends well and holds the trusted key. */
  predicate Authentic(k: Auth.Trusted, v: Visit) {
    v.packagesClean && AuthStop.FirstVerdict(k, Auth.AuthInit(), v.packages) == Auth.Pass
  }

  /** The phone offers a fingerprint that the flash does not have. */
  predicate Offers(mem: seq<Word>, v: Visit)
    requires 2 * |mem| == APP_PROGSPACE_END
  {
    && v.attached && v.found && v.fingerprintClean && |Joined(v.fingerprintFile)| == FINGERPRINT_SIZE
    && !Validates(mem, Joined(v.fingerprintFile))
  }

  /** The image is one, and the flash holds out until it and its fingerprint have been written. */
  predicate Installs(flash: State, v: Visit)
    requires flash.Valid()
  {
    && v.imageClean && IsImage(Joined(v.imageFile))
    && flash.live >= 1 + |Operations(BlocksOf(Joined(v.imageFile)))| + 8
  }

  /** Where a visit ends. */
  function Outcome(k: Auth.Trusted, flash: State, v: Visit): Phase
    requires flash.Valid()
  {
    if Offers(flash.mem, v) && Authentic(k, v) && !Installs(flash, v) then Error else RunApp
  }

  // -------------------------------------------------------------- the events

  function FileEvents(buffers: seq<seq<byte>>): seq<Event> {
    seq(|buffers|, i requires 0 <= i < |buffers| => FingerprintData(buffers[i]))
  }

  const ON := Turn(true, true, true, true)

  /** Up to the end of the fingerprint file. */
  function Opening(v: Visit): seq<Event> {
    if !v.attached then [Turn(true, false, true, true)]
    else if !v.found then [ON, ON, ManagerNotFound]
    else [ON, ON, ManagerFound, ON] + FileEvents(v.fingerprintFile) + [FingerprintEnd(v.fingerprintClean)]
  }

  /** From there on: the packages file, and the image if it is asked for. */
  function DownloadEvents(authentic: bool, flash: State, v: Visit): seq<Event>
    requires flash.Valid()
  {
    if !authentic then [ON, PackagesEnd(false)]
    else if flash.live == 0 then [ON, PackagesEnd(true), ON]
    else
      [ON, PackagesEnd(true), ON] + ImageEvents(v.imageFile) + [ImageEnd(v.imageClean)]
      + if v.imageClean && ImageFits(flash, v) then [ON] else []
  }

  predicate ImageFits(flash: State, v: Visit)
    requires flash.Valid()
  {
    IsImage(Joined(v.imageFile)) && flash.live >= 1 + |Operations(BlocksOf(Joined(v.imageFile)))|
  }

  function Events(k: Auth.Trusted, flash: State, v: Visit): seq<Event>
    requires flash.Valid()
  {
    Opening(v) + if Offers(flash.mem, v) then DownloadEvents(Authentic(k, v), flash, v) else []
  }

  // ------------------------------------------------------ the fingerprint file

  lemma ReachesOne(s: Boot, e: Event)
    requires s.Valid() && Enabled(s, e)
    ensures Reaches(s, [e], Step(s, e))
  {
    hide Step;
    assert [e][1..] == [];
  }

  lemma ReachesFirst(s: Boot, e: Event, rest: seq<Event>, t: Boot)
    requires s.Valid() && Enabled(s, e) && Reaches(Step(s, e), rest, t)
    ensures Reaches(s, [e] + rest, t)
  {
    hide Step;
    assert ([e] + rest)[1..] == rest;
  }

  /** What a fingerprint file leaves behind: its bytes, or a mark that there were too many. */
  predicate Collected(s: Boot, t: Boot, data: seq<byte>)
    requires s.Valid() && t.Valid()
  {
    && t.fpStream == s.fpStream + data
    && t == s.(fpStream := t.fpStream, fingerprint := t.fingerprint, fingerprintSize := t.fingerprintSize)
    && t.fingerprintSize == (if s.fingerprintSize == -1 || s.fingerprintSize + |data| > FINGERPRINT_SIZE then -1
                             else s.fingerprintSize + |data|)
    && (t.fingerprintSize != -1 ==> t.fingerprint[..t.fingerprintSize] == s.fingerprint[..s.fingerprintSize] + data)
  }

  lemma ChunkCollected(s: Boot, data: seq<byte>)
    requires s.Valid()
    ensures Collected(s, RecvFingerprint(s, data), data)
  {
  }

  lemma CollectedThen(s: Boot, m: Boot, t: Boot, a: seq<byte>, b: seq<byte>)
    requires s.Valid() && m.Valid() && t.Valid() && Collected(s, m, a) && Collected(m, t, b)
    ensures Collected(s, t, a + b)
  {
    if t.fingerprintSize != -1 {
      ConcatAssoc(s.fingerprint[..s.fingerprintSize], a, b);
    }
    ConcatAssoc(s.fpStream, a, b);
  }

  lemma {:induction false} FileCollected(s: Boot, buffers: seq<seq<byte>>) returns (t: Boot)
    requires s.Valid() && s.open == FingerprintFile && s.phase != Application
    ensures Reaches(s, FileEvents(buffers), t) && t.Valid() && Collected(s, t, Joined(buffers))
    decreases |buffers|
  {
    if buffers == [] {
      t := s;
      assert s.fpStream + [] == s.fpStream;
      assert s.fingerprintSize != -1 ==> s.fingerprint[..s.fingerprintSize] + [] == s.fingerprint[..s.fingerprintSize];
    } else {
      var e, rest := FingerprintData(buffers[0]), buffers[1..];
      var m := RecvFingerprint(s, buffers[0]);
      ChunkCollected(s, buffers[0]);
      assert Step(s, e) == m && Enabled(s, e);
      hide RecvFingerprint, Step;
      t := FileCollected(m, rest);
      CollectedThen(s, m, t, buffers[0], Joined(rest));
      assert FileEvents(buffers) == [e] + FileEvents(rest);
      hide Enabled, Reaches;
      ReachesFirst(s, e, FileEvents(rest), t);
    }
  }

  lemma FileOpened(s: Boot) returns (t: Boot)
    requires s.Valid() && s.phase == WaitConnect
    ensures Reaches(s, [ON, ON, ManagerFound, ON], t) && t.Valid() && t.loader == s.loader
    ensures t.open == FingerprintFile && t.phase == WaitRecvFp && t.fingerprintSize == 0 && t.fpStream == []
  {
    var a := Step(s, ON);
    var b := Step(a, ON);
    var c := Step(b, ManagerFound);
    t := Step(c, ON);
    ReachesOne(c, ON);
    ReachesFirst(b, ManagerFound, [ON], t);
    ReachesFirst(a, ON, [ManagerFound] + [ON], t);
    ReachesFirst(s, ON, [ON] + ([ManagerFound] + [ON]), t);
    assert [ON] + ([ON] + ([ManagerFound] + [ON])) == [ON, ON, ManagerFound, ON];
  }

  lemma FileClosed(s: Boot, fp: seq<byte>, clean: bool)
    requires s.Valid() && s.phase == WaitRecvFp && s.open == FingerprintFile
    requires s.fingerprintSize == if |fp| > FINGERPRINT_SIZE then -1 else |fp|
    requires |fp| <= FINGERPRINT_SIZE ==> s.fingerprint[..|fp|] == fp
    ensures Enabled(s, FingerprintEnd(clean))
    ensures var t := Step(s, FingerprintEnd(clean));
            && t.Valid() && t.loader == s.loader && t.open == NoFile
            && t.phase == (if clean && |fp| == FINGERPRINT_SIZE && !Validates(s.Mem(), fp) then FpFailed else RunApp)
            && (t.phase == FpFailed ==> t.fingerprint == fp && t.fingerprintSize == FINGERPRINT_SIZE && t.fpStream == s.fpStream)
  {
    hide Validates;
    assert s.fingerprint[..FINGERPRINT_SIZE] == s.fingerprint;
  }

  lemma NotFound(s: Boot) returns (t: Boot)
    requires s.Valid() && s.phase == WaitConnect
    ensures Reaches(s, [ON, ON, ManagerNotFound], t) && t.Valid() && t.loader == s.loader && t.phase == RunApp
  {
    var a := Step(s, ON);
    var b := Step(a, ON);
    t := Step(b, ManagerNotFound);
    ReachesOne(b, ManagerNotFound);
    ReachesFirst(a, ON, [ManagerNotFound], t);
    ReachesFirst(s, ON, [ON] + [ManagerNotFound], t);
    assert [ON] + ([ON] + [ManagerNotFound]) == [ON, ON, ManagerNotFound];
  }

  lemma OpeningEnds(s: Boot, v: Visit) returns (t: Boot)
    requires s.Valid() && s.phase == WaitConnect
    ensures Reaches(s, Opening(v), t) && t.Valid() && t.loader == s.loader
    ensures t.phase == if Offers(s.Mem(), v) then FpFailed else RunApp
    ensures Offers(s.Mem(), v) ==> FingerprintRead(t) && t.fingerprint == Joined(v.fingerprintFile)
  {
    hide Validates;
    if !v.attached {
      t := Step(s, Turn(true, false, true, true));
      ReachesOne(s, Turn(true, false, true, true));
    } else if !v.found {
      t := NotFound(s);
    } else {
      var fp := Joined(v.fingerprintFile);
      var begun := FileOpened(s);
      var read := FileCollected(begun, v.fingerprintFile);
      assert begun.fingerprint[..0] + fp == fp && [] + fp == fp;
      FileClosed(read, fp, v.fingerprintClean);
      t := Step(read, FingerprintEnd(v.fingerprintClean));
      ReachesOne(read, FingerprintEnd(v.fingerprintClean));
      hide Step, Reaches, Enabled, Collected;
      ReachesTrans(s, [ON, ON, ManagerFound, ON], begun, FileEvents(v.fingerprintFile), read);
      ReachesTrans(s, [ON, ON, ManagerFound, ON] + FileEvents(v.fingerprintFile), read,
                   [FingerprintEnd(v.fingerprintClean)], t);
    }
  }

  // ---------------------------------------------------------------- the image

  /** A manager that is not authentic: the application runs, and the flash is not touched. */
  lemma Refused(s: Boot) returns (t: Boot)
    requires s.Valid() && s.phase == FpFailed
    ensures Reaches(s, [ON, PackagesEnd(false)], t) && t.Valid() && t.loader == s.loader && t.phase == RunApp
  {
    var a := Step(s, ON);
    t := Step(a, PackagesEnd(false));
    ReachesOne(a, PackagesEnd(false));
    ReachesFirst(s, ON, [PackagesEnd(false)], t);
    assert [ON] + [PackagesEnd(false)] == [ON, PackagesEnd(false)];
  }

  /** A flash that does not even erase: nothing is downloaded. */
  lemma EraseFails(s: Boot) returns (t: Boot)
    requires s.Valid() && s.phase == FpFailed && s.loader.flash.live == 0
    ensures Reaches(s, [ON, PackagesEnd(true), ON], t) && t.Valid() && t.Mem() == s.Mem() && t.phase == Error
  {
    var a := Step(s, ON);
    var b := Step(a, PackagesEnd(true));
    t := Step(b, ON);
    ReachesOne(b, ON);
    ReachesFirst(a, PackagesEnd(true), [ON], t);
    ReachesFirst(s, ON, [PackagesEnd(true)] + [ON], t);
    assert [ON] + ([PackagesEnd(true)] + [ON]) == [ON, PackagesEnd(true), ON];
  }

  /** Whatever the file holds, the loader gets all of it; the first refusal is an error at once, and remembered. */
  lemma {:induction false} ImageDelivered(s: Boot, buffers: seq<seq<byte>>) returns (t: Boot)
    requires s.Valid() && s.open == ImageStream && s.phase in {WaitRecvImage, Error} && Receiving(s)
    ensures Reaches(s, ImageEvents(buffers), t) && t.Valid() && Receiving(t)
    ensures t.open == ImageStream && t.phase in {WaitRecvImage, Error} && t.fingerprint == s.fingerprint
    ensures t.base == s.base && t.stream == s.stream + Joined(buffers)
    ensures t.phase == if s.phase == WaitRecvImage && Feed(s.loader, Joined(buffers)).1 then WaitRecvImage else Error
    decreases |buffers|
  {
    if buffers == [] {
      t := s;
      assert s.stream + [] == s.stream;
    } else {
      var e, rest := ImageData(buffers[0]), buffers[1..];
      var m := RecvImage(s, buffers[0]);
      FeedSplit(s.loader, buffers[0], Joined(rest));
      StillReceiving(s, buffers[0]);
      assert m.loader == Feed(s.loader, buffers[0]).0 && m.phase == if Feed(s.loader, buffers[0]).1 then s.phase else Error;
      assert Step(s, e) == m && Enabled(s, e) && m.phase in {WaitRecvImage, Error};
      assert m.base == s.base && m.stream == s.stream + buffers[0] && m.fingerprint == s.fingerprint && m.open == ImageStream;
      hide RecvImage, Step, Receiving, Reaches, Enabled, Feed;
      t := ImageDelivered(m, rest);
      ConcatAssoc(s.stream, buffers[0], Joined(rest));
      assert ImageEvents(buffers) == [e] + ImageEvents(rest);
      ReachesFirst(s, e, ImageEvents(rest), t);
    }
  }

  /** At the end of the file the image is complete exactly when it is one and the flash held out. */
  lemma ImageEnds(s: Boot, clean: bool) returns (t: Boot)
    requires s.Valid() && s.open == ImageStream && s.phase in {WaitRecvImage, Error} && Receiving(s)
    ensures Reaches(s, [ImageEnd(clean)], t) && t.Valid() && t.loader == s.loader && t.fingerprint == s.fingerprint
    ensures t.phase == if clean && IsImage(s.stream) && |Operations(BlocksOf(s.stream))| <= s.base.live then RecvImageDone
                       else Error
    ensures t.phase == RecvImageDone ==> Loaded(s.loader, s.base, BlocksOf(s.stream))
    ensures FingerprintErased(t.Mem())
  {
    ImageAccepted(s.base, s.stream);
    if !Feed(Init(s.base), s.stream).1 { FeedRefused(Init(s.base), s.stream); }
    hide Feed, Loaded, IsImage, BlocksOf, Operations, FingerprintErased;
    t := Step(s, ImageEnd(clean));
    ReachesOne(s, ImageEnd(clean));
  }

  lemma Downloaded(s: Boot, v: Visit) returns (t: Boot)
    requires s.Valid() && s.phase == FpFailed && s.loader.flash.live >= 1 && s.fingerprintSize == FINGERPRINT_SIZE
    requires s.fpStream == s.fingerprint
    ensures Reaches(s, [ON, PackagesEnd(true), ON] + ImageEvents(v.imageFile) + [ImageEnd(v.imageClean)], t)
    ensures t.Valid() && t.fingerprint == s.fingerprint && FingerprintErased(t.Mem())
    ensures t.phase == if v.imageClean && ImageFits(s.loader.flash, v) then RecvImageDone else Error
    ensures t.phase == RecvImageDone ==>
              Loaded(t.loader, ErasePage(s.loader.flash, CONFIG_PAGE).0, BlocksOf(Joined(v.imageFile)))
  {
    var begun := ImageBegun(s);
    var got := ImageDelivered(begun, v.imageFile);
    assert [] + Joined(v.imageFile) == Joined(v.imageFile);
    hide Receiving, Reaches, Loaded, IsImage, BlocksOf, Operations, FingerprintErased;
    t := ImageEnds(got, v.imageClean);
    ReachesTrans(s, [ON, PackagesEnd(true), ON], begun, ImageEvents(v.imageFile), got);
    ReachesTrans(s, [ON, PackagesEnd(true), ON] + ImageEvents(v.imageFile), got, [ImageEnd(v.imageClean)], t);
  }

  lemma ImageBegun(s: Boot) returns (t: Boot)
    requires s.Valid() && s.phase == FpFailed && s.loader.flash.live >= 1 && s.fingerprintSize == FINGERPRINT_SIZE
    requires s.fpStream == s.fingerprint
    ensures Reaches(s, [ON, PackagesEnd(true), ON], t) && t.Valid() && Receiving(t)
    ensures t.open == ImageStream && t.phase == WaitRecvImage && t.fingerprint == s.fingerprint && t.stream == []
    ensures t.base == ErasePage(s.loader.flash, CONFIG_PAGE).0 && t.base.live == s.loader.flash.live - 1
  {
    var a := Step(s, ON);
    var b := Step(a, PackagesEnd(true));
    t := Step(b, ON);
    EraseConfigPage(s.loader.flash);
    var flash := ErasePage(s.loader.flash, CONFIG_PAGE).0;
    assert Feed(Init(flash), []).0 == Init(flash);
    ReachesOne(b, ON);
    hide Receiving, Reaches;
    ReachesFirst(a, PackagesEnd(true), [ON], t);
    ReachesFirst(s, ON, [PackagesEnd(true)] + [ON], t);
    assert [ON] + ([PackagesEnd(true)] + [ON]) == [ON, PackagesEnd(true), ON];
  }

  /** The last step, which writes the fingerprint, ends well exactly when eight more operations do. */
  lemma Finished(s: Boot, base: State, image: seq<byte>) returns (t: Boot)
    requires s.Valid() && s.phase == RecvImageDone && IsImage(image) && FingerprintErased(s.Mem())
    requires base.Valid() && Loaded(s.loader, base, BlocksOf(image))
    ensures Reaches(s, [ON], t) && t.Valid()
    ensures t.phase == if base.live >= |Operations(BlocksOf(image))| + 8 then RunApp else Error
    ensures t.phase == RunApp ==> Validates(t.Mem(), s.fingerprint) && HoldsImage(t.Mem(), image)
    ensures t.phase == Error ==> NothingValidates(t.Mem())
  {
    t := Step(s, ON);
    ReachesOne(s, ON);
    var m := WriteFingerprintEffect(s.loader.flash, s.fingerprint, 0);
    HoldsLoaded(s, base, image);
    hide Loaded, Operations, BlocksOf, IsImage;
    if m < 8 {
      PartlyValidatesNothing(t.Mem(), s.fingerprint, m);
    } else {
      HoldsFrame(s.Mem(), t.Mem(), image);
    }
  }

  lemma HoldsLoaded(s: Boot, base: State, image: seq<byte>)
    requires s.Valid() && IsImage(image) && base.Valid() && Loaded(s.loader, base, BlocksOf(image))
    ensures HoldsImage(s.Mem(), image) && s.loader.flash.live == base.live - |Operations(BlocksOf(image))|
  {
    hide Overlay, TouchesPage, IsImage, BlocksOf, Operations;
  }

  /** No fingerprint at all is accepted, so the next visit downloads again. */
  ghost predicate NothingValidates(mem: seq<Word>)
    requires 2 * |mem| == APP_PROGSPACE_END
  {
    forall fp: Fingerprint :: !Validates(mem, fp)
  }

  lemma PartlyValidatesNothing(mem: seq<Word>, fp: Fingerprint, m: nat)
    requires 2 * |mem| == APP_PROGSPACE_END && m < 8 && Partly(mem, fp, m)
    ensures NothingValidates(mem)
  {
    forall other: Fingerprint ensures !Validates(mem, other) {
      assert mem[FP_WORD + m] == ERASED;
      assert FingerprintWord(other, m).ub != ERASED.ub;
    }
  }

  lemma ErasedIsPartly(mem: seq<Word>, fp: Fingerprint)
    requires 2 * |mem| == APP_PROGSPACE_END && FingerprintErased(mem)
    ensures Partly(mem, fp, 0)
  {
  }

  // ------------------------------------------------------------------ a visit

  /**
   Every visit, whatever the phone has and however far the flash holds out, ends where
   its offer says. Without an offer, or from a manager that is not authentic, the flash
   is not touched; an error behind the erasing leaves no fingerprint that validates;
   and a success leaves the new one and its image.
   */
  lemma VisitEnds(k: Auth.Trusted, s: Boot, v: Visit) returns (t: Boot)
    requires s.Valid() && s.phase == WaitConnect
    ensures Reaches(s, Events(k, s.loader.flash, v), t) && t.Valid() && t.phase == Outcome(k, s.loader.flash, v)
    ensures !Offers(s.Mem(), v) || !Authentic(k, v) ==> t.loader == s.loader
    ensures Offers(s.Mem(), v) && Authentic(k, v) && t.phase == RunApp ==>
              Validates(t.Mem(), Joined(v.fingerprintFile)) && HoldsImage(t.Mem(), Joined(v.imageFile))
    ensures t.phase == Error ==> t.Mem() == s.Mem() || NothingValidates(t.Mem())
  {
    var m := OpeningEnds(s, v);
    if !Offers(s.Mem(), v) {
      t := m;
      assert Opening(v) + [] == Opening(v);
    } else if !Authentic(k, v) {
      t := Refused(m);
      ReachesTrans(s, Opening(v), m, [ON, PackagesEnd(false)], t);
    } else {
      t := OfferTaken(m, v);
      ReachesTrans(s, Opening(v), m, DownloadEvents(true, s.loader.flash, v), t);
    }
  }

  lemma OfferTaken(s: Boot, v: Visit) returns (t: Boot)
    requires s.Valid() && s.phase == FpFailed && s.fingerprintSize == FINGERPRINT_SIZE && s.fpStream == s.fingerprint
    ensures Reaches(s, DownloadEvents(true, s.loader.flash, v), t) && t.Valid()
    ensures t.phase == if Installs(s.loader.flash, v) then RunApp else Error
    ensures t.phase == RunApp ==> Validates(t.Mem(), s.fingerprint) && HoldsImage(t.Mem(), Joined(v.imageFile))
    ensures t.phase == Error ==> t.Mem() == s.Mem() || NothingValidates(t.Mem())
  {
    var flash := s.loader.flash;
    if flash.live == 0 {
      t := EraseFails(s);
    } else {
      var base := ErasePage(flash, CONFIG_PAGE).0;
      var got := Downloaded(s, v);
      var events := [ON, PackagesEnd(true), ON] + ImageEvents(v.imageFile) + [ImageEnd(v.imageClean)];
      hide Loaded, IsImage, BlocksOf, Operations, FingerprintErased, Validates, Reaches, HoldsImage;
      if v.imageClean && ImageFits(flash, v) {
        t := Finished(got, base, Joined(v.imageFile));
        ReachesTrans(s, events, got, [ON], t);
      } else {
        t := got;
        ErasedIsPartly(t.Mem(), s.fingerprint);
        PartlyValidatesNothing(t.Mem(), s.fingerprint, 0);
        assert events + [] == events;
      }
    }
  }

  /** A lost connection leads back to the beginning from everywhere, without touching the flash. */
  lemma ConnectionLost(s: Boot, attached: bool, ready: bool, opens: bool)
    requires s.Valid() && s.phase != Application
    ensures var e := Turn(false, attached, ready, opens);
            Enabled(s, e) && var t := Step(s, e); t.Valid() && t.phase == WaitConnect && t.loader == s.loader && t.open == NoFile
  {
  }

  /** So whatever was going on, the visit after a lost connection is like any other. */
  lemma NextVisit(k: Auth.Trusted, s: Boot, v: Visit) returns (t: Boot)
    requires s.Valid() && s.phase != Application
    ensures Reaches(s, [Turn(false, false, false, false)] + Events(k, s.loader.flash, v), t)
    ensures t.Valid() && t.phase == Outcome(k, s.loader.flash, v)
  {
    var lost := Turn(false, false, false, false);
    ConnectionLost(s, false, false, false);
    t := VisitEnds(k, Step(s, lost), v);
    hide Step;
    ReachesFirst(s, lost, Events(k, s.loader.flash, v), t);
  }

  // -------------------------------------------------- nothing without authentication

  /** No image is being received or about to be. */
  predicate Untrusted(s: Boot) {
    s.phase !in {AuthPassed, WaitRecvImage, RecvImageDone} && s.open != ImageStream
  }

  lemma StepUntrusted(s: Boot, e: Event)
    requires s.Valid() && Untrusted(s) && Enabled(s, e) && e != PackagesEnd(true)
    ensures var t := Step(s, e);
            t.Valid() && Untrusted(t) && t.Mem() == s.Mem() && t.loader.flash.log == s.loader.flash.log
  {
    hide Validates;
  }

  /**
   Without a manager that has been found authentic no run changes the flash or even
   tries to: not on any files, in any order, across lost connections and resets.
   */
  lemma {:induction false} NothingWithoutAuthentication(s: Boot, events: seq<Event>, t: Boot)
    requires s.Valid() && Untrusted(s) && Reaches(s, events, t) && PackagesEnd(true) !in events
    ensures t.Valid() && Untrusted(t) && t.Mem() == s.Mem() && t.loader.flash.log == s.loader.flash.log
    decreases |events|
  {
    if events != [] {
      StepUntrusted(s, events[0]);
      hide Step, Untrusted;
      NothingWithoutAuthentication(Step(s, events[0]), events[1..], t);
    }
  }
}
