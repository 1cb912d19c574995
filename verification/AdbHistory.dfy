/**
 What the record of the wire says about the channels of the debug bridge: every run is
 a conversation that the protocol allows, the state of each channel follows from what
 has been said on it, and a client that waits until its channel is ready has each of
 its writes sent exactly once and in order.
 */
module AdbHistory {
  import opened Bytes
  import opened AdbChannels

  // --------------------------------------------------------------- the record

  /** The state that what has been said with an identifier leads to. */
  function Phase(wire: seq<Wire>, localId: nat): ChannelState {
    if wire == [] then Free
    else
      var before, last := wire[..|wire| - 1], wire[|wire| - 1];
      if last.localId != localId then Phase(before, localId)
      else
        match last
        case AskedOpen(_) => Start
        case SentOpen(_) => WaitOpen
        case GotOpened(_, _) => Idle
        case SentWrite(_, _, _) => WaitReady
        case GotOkay(_) => Idle
        case AskedClose(_) => CloseRequested
        case SentClose(_, _) => WaitClose
        case GotClose(_) => Free
        case _ => Phase(before, localId)
  }

  /** Something has come in that has not been acknowledged yet. */
  function Unanswered(wire: seq<Wire>, localId: nat): bool {
    if wire == [] then false
    else
      var before, last := wire[..|wire| - 1], wire[|wire| - 1];
      if last.localId != localId || !(last.GotWrite? || last.SentOkay? || last.AskedOpen?) then Unanswered(before, localId)
      else last.GotWrite?
  }

  /** The identifier of the other side, as it came with its acknowledgement of the open. */
  function Remote(wire: seq<Wire>, localId: nat): Option<nat> {
    if wire == [] then None
    else
      var before, last := wire[..|wire| - 1], wire[|wire| - 1];
      if last.localId == localId && last.GotOpened? then Some(last.remoteId) else Remote(before, localId)
  }

  /** What the client has asked to write, and what has been sent. */
  function Asked(wire: seq<Wire>, localId: nat): seq<seq<byte>> {
    if wire == [] then []
    else
      var before, last := wire[..|wire| - 1], wire[|wire| - 1];
      Asked(before, localId) + if last.localId == localId && last.AskedWrite? then [last.data] else []
  }

  function Sent(wire: seq<Wire>, localId: nat): seq<seq<byte>> {
    if wire == [] then []
    else
      var before, last := wire[..|wire| - 1], wire[|wire| - 1];
      Sent(before, localId) + if last.localId == localId && last.SentWrite? then [last.data] else []
  }

  /** What may be said after the rest. */
  predicate Allowed(wire: seq<Wire>, w: Wire) {
    var phase := Phase(wire, w.localId);
    match w
    case AskedOpen(_) => phase == Free
    case SentOpen(_) => phase == Start
    case GotOpened(_, _) => phase == WaitOpen
    case AskedWrite(_, _) => phase == Idle
    case SentWrite(_, remoteId, _) =>
      phase == Idle && !Unanswered(wire, w.localId) && Remote(wire, w.localId) == Some(remoteId)
    case GotOkay(_) => phase == WaitReady
    case GotWrite(_) => true
    case SentOkay(_, _) => phase != Free && phase != Start && Unanswered(wire, w.localId)
    case AskedClose(_) => phase != Free
    case SentClose(_, _) => phase == CloseRequested && !Unanswered(wire, w.localId)
    case GotClose(_) => phase != Free && phase != Start
  }

  ghost predicate Conforms(wire: seq<Wire>) {
    forall i :: 0 <= i < |wire| ==> AllowedAt(wire, i)
  }

  predicate AllowedAt(wire: seq<Wire>, i: nat)
    requires i < |wire|
  {
    Allowed(wire[..i], wire[i])
  }

  // ------------------------------------------------------ channels and record

  /** A channel is what has been said on it. */
  ghost predicate Recalls(c: Channel, h: nat, wire: seq<Wire>) {
    && (c.localId == 0 || c.localId % 0x100 == h)
    && c.state == Phase(wire, c.localId)
    && (c.state != Free ==> c.localId > 0 && c.pendingAck == Unanswered(wire, c.localId))
    && (c.state == Idle || c.state == WaitReady ==> Remote(wire, c.localId) == Some(c.remoteId))
  }

  ghost predicate Hist(s: Adb) {
    && s.Valid() && s.counter > 0 && Conforms(s.wire)
    && (forall h :: 0 <= h < ADB_MAX_CHANNELS ==> RecallsAt(s, h))
    && (forall i :: 0 <= i < |s.wire| ==> s.wire[i].localId < 0x100 * s.counter)
  }

  ghost predicate RecallsAt(s: Adb, h: nat)
    requires s.Valid() && h < ADB_MAX_CHANNELS
  {
    s.channels[h].localId < 0x100 * s.counter && Recalls(s.channels[h], h, s.wire)
  }

  /** What one more record changes. */
  lemma OneMore(wire: seq<Wire>, w: Wire, localId: nat)
    ensures w.localId != localId ==>
              && Phase(wire + [w], localId) == Phase(wire, localId)
              && Unanswered(wire + [w], localId) == Unanswered(wire, localId)
              && Remote(wire + [w], localId) == Remote(wire, localId)
    ensures w.localId == localId && !w.GotOpened? ==> Remote(wire + [w], localId) == Remote(wire, localId)
    ensures w.localId == localId && w.GotOpened? ==> Remote(wire + [w], localId) == Some(w.remoteId)
    ensures w.localId == localId ==>
              Unanswered(wire + [w], localId)
              == if w.GotWrite? || w.SentOkay? || w.AskedOpen? then w.GotWrite? else Unanswered(wire, localId)
    ensures w.localId == localId && (w.GotWrite? || w.SentOkay? || w.AskedWrite?) ==>
              Phase(wire + [w], localId) == Phase(wire, localId)
  {
    assert (wire + [w])[..|wire|] == wire;
  }

  /** The state that a record leads to. */
  lemma PhaseAfter(wire: seq<Wire>, w: Wire)
    ensures Phase(wire + [w], w.localId)
         == match w
            case AskedOpen(_) => Start
            case SentOpen(_) => WaitOpen
            case GotOpened(_, _) => Idle
            case SentWrite(_, _, _) => WaitReady
            case GotOkay(_) => Idle
            case AskedClose(_) => CloseRequested
            case SentClose(_, _) => WaitClose
            case GotClose(_) => Free
            case _ => Phase(wire, w.localId)
  {
    assert (wire + [w])[..|wire|] == wire;
  }

  lemma ConformsMore(wire: seq<Wire>, w: Wire)
    requires Conforms(wire) && Allowed(wire, w)
    ensures Conforms(wire + [w])
  {
    hide Allowed;
    var more := wire + [w];
    forall i | 0 <= i < |more| ensures AllowedAt(more, i) {
      if i < |wire| {
        assert AllowedAt(wire, i) && more[..i] == wire[..i];
      } else {
        assert more[..i] == wire;
      }
    }
  }

  lemma {:induction false} NothingSaid(wire: seq<Wire>, localId: nat)
    requires forall i :: 0 <= i < |wire| ==> wire[i].localId != localId
    ensures Phase(wire, localId) == Free && !Unanswered(wire, localId) && Remote(wire, localId) == None
    ensures Asked(wire, localId) == [] && Sent(wire, localId) == []
  {
    if wire != [] { NothingSaid(wire[..|wire| - 1], localId); }
  }

  /** A record on one channel does not concern the others. */
  lemma OthersRecall(s: Adb, t: Adb, h: nat, w: Wire)
    requires Hist(s) && t.Valid() && h < ADB_MAX_CHANNELS && t.wire == s.wire + [w]
    requires t.counter >= s.counter && t.channels == s.channels[h := t.channels[h]]
    requires w.localId % 0x100 == h && (w.localId > 0 || w.GotWrite?) && w.localId < 0x100 * t.counter
    requires RecallsAt(t, h) && Allowed(s.wire, w)
    ensures Hist(t)
  {
    ConformsMore(s.wire, w);
    hide Allowed, Conforms, Phase, Unanswered, Remote;
    forall g | 0 <= g < ADB_MAX_CHANNELS ensures RecallsAt(t, g) {
      assert RecallsAt(s, g);
      OneMore(s.wire, w, s.channels[g].localId);
    }
  }

  // -------------------------------------------------------------------- steps

  lemma OpenRecalls(s: Adb)
    requires Hist(s)
    ensures Hist(Open(s))
  {
    var free := FirstFree(s.channels, 0);
    hide FirstFree;
    if free.Some? {
      var h, t, localId := free.value, Open(s), 0x100 * s.counter + free.value;
      IdOf(s.counter, h);
      NothingSaid(s.wire, localId);
      PhaseAfter(s.wire, AskedOpen(localId));
      OneMore(s.wire, AskedOpen(localId), localId);
      hide Phase, Unanswered, Remote;
      OthersRecall(s, t, h, AskedOpen(localId));
    }
  }

  lemma TasksRecall(s: Adb)
    requires Hist(s)
    ensures Hist(Tasks(s))
  {
    var found := Scan(s.channels, s.current, ADB_MAX_CHANNELS);
    hide Scan;
    if found.Some? {
      var h := found.value;
      assert RecallsAt(s, h);
      var (c, packet) := Serve(s.channels[h]);
      PhaseAfter(s.wire, packet);
      OneMore(s.wire, packet, packet.localId);
      hide Phase, Unanswered, Remote;
      OthersRecall(s, Tasks(s), h, packet);
    }
  }

  lemma CloseRecalls(s: Adb, h: nat)
    requires Hist(s) && h < ADB_MAX_CHANNELS
    ensures Hist(Close(s, h))
  {
    var c := s.channels[h];
    assert RecallsAt(s, h);
    if c.state != Free {
      var w := AskedClose(c.localId);
      PhaseAfter(s.wire, w);
      OneMore(s.wire, w, c.localId);
      hide Phase, Unanswered, Remote;
      OthersRecall(s, Close(s, h), h, w);
    }
  }

  lemma WriteRecalls(s: Adb, h: nat, data: seq<byte>)
    requires Hist(s) && h < ADB_MAX_CHANNELS && s.channels[h].state == Idle
    ensures Hist(Write(s, h, data))
  {
    var w := AskedWrite(s.channels[h].localId, data);
    assert RecallsAt(s, h);
    OneMore(s.wire, w, w.localId);
    hide Phase, Unanswered, Remote;
    OthersRecall(s, Write(s, h, data), h, w);
  }

  lemma OkayRecalls(s: Adb, remoteId: nat, localId: nat)
    requires Hist(s)
    ensures Hist(Okay(s, remoteId, localId))
  {
    var h := localId % 0x100;
    if Addressed(s, h, localId) {
      assert RecallsAt(s, h);
      var begun, okay := GotOpened(localId, remoteId), GotOkay(localId);
      PhaseAfter(s.wire, begun);
      PhaseAfter(s.wire, okay);
      OneMore(s.wire, begun, localId);
      OneMore(s.wire, okay, localId);
      hide Phase, Unanswered, Remote;
      var c := s.channels[h];
      if c.state == WaitOpen {
        OthersRecall(s, Okay(s, remoteId, localId), h, begun);
      } else if c.state == WaitReady && c.remoteId == remoteId {
        OthersRecall(s, Okay(s, remoteId, localId), h, okay);
      }
    }
  }

  lemma ClosedRecalls(s: Adb, localId: nat)
    requires Hist(s)
    ensures Hist(Closed(s, localId))
  {
    var h := localId % 0x100;
    if Addressed(s, h, localId) && s.channels[h].state != Start && s.channels[h].state != Free {
      assert RecallsAt(s, h);
      PhaseAfter(s.wire, GotClose(localId));
      OneMore(s.wire, GotClose(localId), localId);
      hide Phase, Unanswered, Remote;
      OthersRecall(s, Closed(s, localId), h, GotClose(localId));
    }
  }

  lemma WrittenRecalls(s: Adb, remoteId: nat, localId: nat)
    requires Hist(s)
    ensures Hist(Written(s, remoteId, localId))
  {
    var h := localId % 0x100;
    if Addressed(s, h, localId) && s.channels[h].remoteId == remoteId {
      assert RecallsAt(s, h);
      OneMore(s.wire, GotWrite(localId), localId);
      hide Phase, Unanswered, Remote;
      OthersRecall(s, Written(s, remoteId, localId), h, GotWrite(localId));
    }
  }

  lemma StepRecalls(s: Adb, e: Event)
    requires Hist(s) && Enabled(s, e)
    ensures Hist(Step(s, e))
  {
    hide Hist;
    match e
    case Opens => OpenRecalls(s);
    case Closes(h) => CloseRecalls(s, h);
    case Writes(h, data) => WriteRecalls(s, h, data);
    case Sends => TasksRecall(s);
    case OkayPacket(remoteId, localId) => OkayRecalls(s, remoteId, localId);
    case ClosePacket(localId) => ClosedRecalls(s, localId);
    case WritePacket(remoteId, localId) => WrittenRecalls(s, remoteId, localId);
  }

  lemma {:induction false} RunRecalls(s: Adb, events: seq<Event>)
    requires Hist(s) && Possible(s, events)
    ensures Hist(Run(s, events))
    decreases |events|
  {
    if events != [] {
      StepRecalls(s, events[0]);
      hide Hist, Step, Enabled;
      RunRecalls(Step(s, events[0]), events[1..]);
    }
  }

  lemma StartRecalls()
    ensures Hist(AdbChannels.Init())
  {
    var s := AdbChannels.Init();
    forall h | 0 <= h < ADB_MAX_CHANNELS ensures RecallsAt(s, h) {
    }
  }

  /**
   Every run is a conversation that the protocol allows: a channel is opened before
   anything is written on it, writes go to the identifier that came with the open and
   wait for the acknowledgement of the one before, whatever came in is acknowledged
   once and first, and each channel is in the state that follows from what was said.
   */
  lemma RunsConform(events: seq<Event>)
    requires Possible(AdbChannels.Init(), events)
    ensures var s := Run(AdbChannels.Init(), events);
            && Conforms(s.wire)
            && forall h :: 0 <= h < ADB_MAX_CHANNELS ==> RecallsAt(s, h)
  {
    StartRecalls();
    RunRecalls(AdbChannels.Init(), events);
  }

  /** A new channel is the first free one, and there is one unless all are taken. */
  lemma {:induction false} FirstFreeIs(channels: seq<Channel>, i: nat)
    requires i <= |channels|
    ensures match FirstFree(channels, i)
            case None => forall h :: i <= h < |channels| ==> channels[h].state != Free
            case Some(h) => i <= h < |channels| && channels[h].state == Free && forall g :: i <= g < h ==> channels[g].state != Free
    decreases |channels| - i
  {
    if i < |channels| && channels[i].state != Free { FirstFreeIs(channels, i + 1); }
  }

  /** A packet for a channel in use is taken for what the conversation makes of it. */
  lemma PacketsAreHeard(events: seq<Event>, h: nat, remoteId: nat)
    requires Possible(AdbChannels.Init(), events) && h < ADB_MAX_CHANNELS
    requires Run(AdbChannels.Init(), events).channels[h].state != Free
    ensures var s := Run(AdbChannels.Init(), events); var localId := s.channels[h].localId; var phase := Phase(s.wire, localId);
            && Okay(s, remoteId, localId).wire == s.wire
               + (if phase == WaitOpen then [GotOpened(localId, remoteId)]
                  else if phase == WaitReady && Remote(s.wire, localId) == Some(remoteId) then [GotOkay(localId)] else [])
            && Closed(s, localId).wire == s.wire + (if phase != Start then [GotClose(localId)] else [])
            && (Remote(s.wire, localId) == Some(remoteId) && (phase == Idle || phase == WaitReady) ==>
                  Written(s, remoteId, localId).wire == s.wire + [GotWrite(localId)])
  {
    RunsConform(events);
    var s := Run(AdbChannels.Init(), events);
    assert RecallsAt(s, h);
    assert s.wire + [] == s.wire;
    hide Phase, Unanswered, Remote, Run, Conforms;
  }

  // ----------------------------------------------------------- nothing is lost

  /** The client only writes when its channel is ready. */
  predicate Patient(s: Adb, events: seq<Event>)
    requires Possible(s, events)
    decreases |events|
  {
    events == []
    || ((events[0].Writes? ==> s.channels[events[0].h].data == None)
        && Patient(Step(s, events[0]), events[1..]))
  }

  /** What is asked for is sent in this order, and all of it but perhaps the last. */
  predicate InOrder(wire: seq<Wire>, localId: nat) {
    Sent(wire, localId) <= Asked(wire, localId) && |Asked(wire, localId)| <= |Sent(wire, localId)| + 1
  }

  /** The data that waits to be sent, or to be acknowledged. */
  predicate Waiting(c: Channel, wire: seq<Wire>) {
    var asked, sent := Asked(wire, c.localId), Sent(wire, c.localId);
    && (c.state == Start || c.state == WaitOpen ==> c.data == None && asked == sent)
    && (c.state == Idle ==> asked == sent + if c.data.Some? then [c.data.value] else [])
    && (c.state == WaitReady ==> asked == sent)
  }

  ghost predicate Kept(s: Adb) {
    && Hist(s)
    && (forall h :: 0 <= h < ADB_MAX_CHANNELS ==> Waiting(s.channels[h], s.wire))
    && (forall localId: nat :: InOrder(s.wire, localId))
  }

  lemma DataMore(wire: seq<Wire>, w: Wire, localId: nat)
    ensures Asked(wire + [w], localId) == Asked(wire, localId) + (if w.localId == localId && w.AskedWrite? then [w.data] else [])
    ensures Sent(wire + [w], localId) == Sent(wire, localId) + (if w.localId == localId && w.SentWrite? then [w.data] else [])
  {
    assert (wire + [w])[..|wire|] == wire;
  }

  /** One channel changes, with one record. */
  lemma KeptMore(s: Adb, t: Adb, h: nat, w: Wire)
    requires Kept(s) && Hist(t) && h < ADB_MAX_CHANNELS && t.wire == s.wire + [w]
    requires t.channels == s.channels[h := t.channels[h]] && w.localId % 0x100 == h
    requires Waiting(t.channels[h], t.wire) && InOrder(t.wire, w.localId)
    requires w.localId > 0 || w.GotWrite?
    ensures Kept(t)
  {
    hide Asked, Sent, Conforms;
    forall localId: nat ensures InOrder(t.wire, localId) {
      assert InOrder(s.wire, localId);
      DataMore(s.wire, w, localId);
      assert Asked(s.wire, localId) + [] == Asked(s.wire, localId) && Sent(s.wire, localId) + [] == Sent(s.wire, localId);
    }
    forall g | 0 <= g < ADB_MAX_CHANNELS ensures Waiting(t.channels[g], t.wire) {
      if g != h {
        assert Waiting(s.channels[g], s.wire) && RecallsAt(t, g);
        DataMore(s.wire, w, s.channels[g].localId);
        OtherData(s.wire, w, s.channels[g].localId);
      }
    }
  }

  lemma OtherData(wire: seq<Wire>, w: Wire, localId: nat)
    requires w.localId != localId || !(w.AskedWrite? || w.SentWrite?)
    ensures Asked(wire + [w], localId) == Asked(wire, localId) && Sent(wire + [w], localId) == Sent(wire, localId)
  {
    DataMore(wire, w, localId);
  }

  lemma StepKeeps(s: Adb, e: Event)
    requires Kept(s) && Enabled(s, e) && (e.Writes? ==> s.channels[e.h].data == None)
    ensures Kept(Step(s, e))
  {
    StepRecalls(s, e);
    var t := Step(s, e);
    hide Asked, Sent, Conforms, Scan, FirstFree, Kept, Hist;
    match e
    case Opens => OpenKeeps(s);
    case Sends => TasksKeep(s);
    case Writes(h, data) => WriteKeeps(s, h, data);
    case OkayPacket(remoteId, localId) => OkayKeeps(s, remoteId, localId);
    case _ => OtherKeeps(s, e);
  }

  lemma OpenKeeps(s: Adb)
    requires Kept(s) && Hist(Open(s))
    ensures Kept(Open(s))
  {
    var free := FirstFree(s.channels, 0);
    hide FirstFree;
    if free.Some? {
      var h, localId := free.value, 0x100 * s.counter + free.value;
      IdOf(s.counter, h);
      NothingSaid(s.wire, localId);
      OtherData(s.wire, AskedOpen(localId), localId);
      hide Asked, Sent, Conforms;
      KeptMore(s, Open(s), h, AskedOpen(localId));
    }
  }

  lemma TasksKeep(s: Adb)
    requires Kept(s) && Hist(Tasks(s))
    ensures Kept(Tasks(s))
  {
    var found := Scan(s.channels, s.current, ADB_MAX_CHANNELS);
    hide Scan;
    if found.Some? {
      var h := found.value;
      assert RecallsAt(s, h) && Waiting(s.channels[h], s.wire) && InOrder(s.wire, s.channels[h].localId);
      ServedWaits(s.channels[h], s.wire);
      hide Asked, Sent, Conforms, Waiting, InOrder, Phase, Unanswered, Remote;
      KeptMore(s, Tasks(s), h, Serve(s.channels[h]).1);
    }
  }

  lemma ServedWaits(c: Channel, wire: seq<Wire>)
    requires Eligible(c) && Waiting(c, wire) && InOrder(wire, c.localId)
    ensures Serve(c).0.localId == Serve(c).1.localId == c.localId
    ensures Waiting(Serve(c).0, wire + [Serve(c).1]) && InOrder(wire + [Serve(c).1], c.localId)
  {
    var (d, packet) := Serve(c);
    DataMore(wire, packet, c.localId);
    if !packet.SentWrite? { OtherData(wire, packet, c.localId); }
    hide Asked, Sent;
    assert Asked(wire, c.localId) + [] == Asked(wire, c.localId);
  }

  lemma WriteKeeps(s: Adb, h: nat, data: seq<byte>)
    requires Kept(s) && h < ADB_MAX_CHANNELS && s.channels[h].state == Idle && s.channels[h].data == None
    requires Hist(Write(s, h, data))
    ensures Kept(Write(s, h, data))
  {
    var w := AskedWrite(s.channels[h].localId, data);
    assert RecallsAt(s, h) && Waiting(s.channels[h], s.wire);
    DataMore(s.wire, w, w.localId);
    hide Asked, Sent, Conforms;
    var asked, sent := Asked(s.wire, w.localId), Sent(s.wire, w.localId);
    assert sent + [] == sent;
    KeptMore(s, Write(s, h, data), h, w);
  }

  lemma OkayKeeps(s: Adb, remoteId: nat, localId: nat)
    requires Kept(s) && Hist(Okay(s, remoteId, localId))
    ensures Kept(Okay(s, remoteId, localId))
  {
    var h := localId % 0x100;
    var t := Okay(s, remoteId, localId);
    if t != s {
      var w := if s.channels[h].state == WaitOpen then GotOpened(localId, remoteId) else GotOkay(localId);
      assert RecallsAt(s, h) && Waiting(s.channels[h], s.wire) && InOrder(s.wire, localId);
      OtherData(s.wire, w, localId);
      hide Asked, Sent, Conforms;
      var sent := Sent(s.wire, localId);
      assert sent + [] == sent;
      KeptMore(s, t, h, w);
    }
  }

  /** Everything else leaves the data alone. */
  lemma OtherKeeps(s: Adb, e: Event)
    requires Kept(s) && Enabled(s, e) && Hist(Step(s, e)) && (e.Closes? || e.ClosePacket? || e.WritePacket?)
    ensures Kept(Step(s, e))
  {
    var t := Step(s, e);
    if t != s {
      var h := if e.Closes? then e.h else e.localId % 0x100;
      var localId := s.channels[h].localId;
      var w := if e.Closes? then AskedClose(localId) else if e.ClosePacket? then GotClose(localId) else GotWrite(localId);
      assert RecallsAt(s, h) && Waiting(s.channels[h], s.wire) && InOrder(s.wire, localId);
      OtherData(s.wire, w, localId);
      hide Asked, Sent, Conforms, Phase, Unanswered, Remote;
      KeptMore(s, t, h, w);
    }
  }

  lemma {:induction false} RunKeeps(s: Adb, events: seq<Event>)
    requires Kept(s) && Possible(s, events) && Patient(s, events)
    ensures Kept(Run(s, events))
    decreases |events|
  {
    if events != [] {
      StepKeeps(s, events[0]);
      hide Kept, Step, Enabled;
      RunKeeps(Step(s, events[0]), events[1..]);
    }
  }

  /**
   With clients that wait until their channel is ready, what goes out on each channel is
   what was asked for, in that order and once each; and while a channel is idle with
   nothing to write, or waits for an acknowledgement, everything has gone out.
   */
  lemma WritesAreSent(events: seq<Event>, localId: nat)
    requires Possible(AdbChannels.Init(), events) && Patient(AdbChannels.Init(), events)
    ensures var s := Run(AdbChannels.Init(), events);
            && InOrder(s.wire, localId)
            && forall h :: 0 <= h < ADB_MAX_CHANNELS ==> Waiting(s.channels[h], s.wire)
  {
    StartRecalls();
    StartKept();
    RunKeeps(AdbChannels.Init(), events);
    hide Sent, Asked, Run;
  }

  lemma StartKept()
    requires Hist(AdbChannels.Init())
    ensures Kept(AdbChannels.Init())
  {
    var s := AdbChannels.Init();
    forall h | 0 <= h < ADB_MAX_CHANNELS ensures Waiting(s.channels[h], s.wire) {
    }
  }
}
