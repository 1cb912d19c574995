/**
 The channels of the Android debug bridge (libadb/adb.c): one sender shared by all
 channels in turn, and at most one unacknowledged write on each of them.
 */
module AdbChannels {
  import opened Bytes

  const ADB_MAX_CHANNELS := 8

  datatype ChannelState = Free | Start | WaitOpen | Idle | WaitReady | CloseRequested | WaitClose

  /** ADB_CHANNEL; no data is a null pointer. */
  datatype Channel = Channel(state: ChannelState, data: Option<seq<byte>>, localId: nat, remoteId: nat, pendingAck: bool)

  /** Packets sent, packets that were accepted, and what the clients asked for. */
  datatype Wire =
    | SentOpen(localId: nat) | SentOkay(localId: nat, remoteId: nat) | SentClose(localId: nat, remoteId: nat)
    | SentWrite(localId: nat, remoteId: nat, data: seq<byte>)
    | GotOpened(localId: nat, remoteId: nat) | GotOkay(localId: nat) | GotWrite(localId: nat) | GotClose(localId: nat)
    | AskedOpen(localId: nat) | AskedWrite(localId: nat, data: seq<byte>) | AskedClose(localId: nat)

  /** The channels, the one served last, the counter behind the local identifiers, and a record of the wire. */
  datatype Adb = Adb(channels: seq<Channel>, current: nat, counter: nat, wire: seq<Wire>) {
    predicate Valid() {
      |channels| == ADB_MAX_CHANNELS && current < ADB_MAX_CHANNELS
    }
  }

  function Init(): Adb {
    var free := Channel(Free, None, 0, 0, false);
    Adb([free, free, free, free, free, free, free, free], 0, 1, [])
  }

  // ---------------------------------------------------------------- the sender

  function Next(i: nat): (n: nat)
    requires i < ADB_MAX_CHANNELS
    ensures n < ADB_MAX_CHANNELS
  {
    if i + 1 == ADB_MAX_CHANNELS then 0 else i + 1
  }

  /** The channel has something to send. */
  predicate Eligible(c: Channel) {
    c.state == Start || (c.state != Free && c.pendingAck) || c.state == CloseRequested
    || (c.state == Idle && c.data.Some?)
  }

  /** The loop that looks for the next channel with something to send, at most n channels far. */
  function Scan(channels: seq<Channel>, current: nat, n: nat): (r: Option<nat>)
    requires |channels| == ADB_MAX_CHANNELS && current < ADB_MAX_CHANNELS
    ensures r.Some? ==> r.value < ADB_MAX_CHANNELS && Eligible(channels[r.value])
    decreases n
  {
    if n == 0 then None
    else if Eligible(channels[Next(current)]) then Some(Next(current))
    else Scan(channels, Next(current), n - 1)
  }

  /** What a channel sends, and its state afterwards; an acknowledgement goes before a close or a write. */
  function Serve(c: Channel): (Channel, Wire)
    requires Eligible(c)
  {
    if c.state == Start then (c.(state := WaitOpen), SentOpen(c.localId))
    else if c.pendingAck then (c.(pendingAck := false), SentOkay(c.localId, c.remoteId))
    else if c.state == CloseRequested then (c.(state := WaitClose), SentClose(c.localId, c.remoteId))
    else (c.(state := WaitReady), SentWrite(c.localId, c.remoteId, c.data.value))
  }

  /** ADBChannelTasks, when the sender is free. */
  function Tasks(s: Adb): (t: Adb)
    requires s.Valid()
    ensures t.Valid()
  {
    match Scan(s.channels, s.current, ADB_MAX_CHANNELS)
    case None => s
    case Some(h) =>
      var (c, packet) := Serve(s.channels[h]);
      s.(channels := s.channels[h := c], current := h, wire := s.wire + [packet])
  }

  // ----------------------------------------------------- clients and packets

  function FirstFree(channels: seq<Channel>, i: nat): (r: Option<nat>)
    requires i <= |channels|
    ensures r.Some? ==> r.value < |channels| && channels[r.value].state == Free
    decreases |channels| - i
  {
    if i == |channels| then None else if channels[i].state == Free then Some(i) else FirstFree(channels, i + 1)
  }

  /** ADBOpen; the identifier is the counter and the channel's number. */
  function Open(s: Adb): (t: Adb)
    requires s.Valid()
    ensures t.Valid()
  {
    match FirstFree(s.channels, 0)
    case None => s
    case Some(h) =>
      var localId := 0x100 * s.counter + h;
      s.(channels := s.channels[h := Channel(Start, None, localId, s.channels[h].remoteId, false)],
         counter := s.counter + 1, wire := s.wire + [AskedOpen(localId)])
  }

  /** A channel changes, and the reason is recorded. */
  function Update(s: Adb, h: nat, c: Channel, w: Wire): (t: Adb)
    requires s.Valid() && h < ADB_MAX_CHANNELS
    ensures t.Valid()
  {
    s.(channels := s.channels[h := c], wire := s.wire + [w])
  }

  function Close(s: Adb, h: nat): (t: Adb)
    requires s.Valid() && h < ADB_MAX_CHANNELS
    ensures t.Valid()
  {
    var c := s.channels[h];
    if c.state == Free then s else Update(s, h, c.(state := CloseRequested), AskedClose(c.localId))
  }

  function Write(s: Adb, h: nat, data: seq<byte>): (t: Adb)
    requires s.Valid() && h < ADB_MAX_CHANNELS && s.channels[h].state == Idle
    ensures t.Valid()
  {
    Update(s, h, s.channels[h].(data := Some(data)), AskedWrite(s.channels[h].localId, data))
  }

  /** The channel that a packet is for, by the low byte of our identifier. */
  predicate Addressed(s: Adb, h: nat, localId: nat)
    requires s.Valid()
  {
    h == localId % 0x100 && h < ADB_MAX_CHANNELS && s.channels[h].localId == localId
  }

  function Okay(s: Adb, remoteId: nat, localId: nat): (t: Adb)
    requires s.Valid()
    ensures t.Valid()
  {
    var h := localId % 0x100;
    if !Addressed(s, h, localId) then s
    else
      var c := s.channels[h];
      if c.state == WaitOpen then Update(s, h, c.(remoteId := remoteId, state := Idle), GotOpened(localId, remoteId))
      else if c.state == WaitReady && c.remoteId == remoteId then
        Update(s, h, c.(data := None, state := Idle), GotOkay(localId))
      else s
  }

  function Closed(s: Adb, localId: nat): (t: Adb)
    requires s.Valid()
    ensures t.Valid()
  {
    var h := localId % 0x100;
    if !Addressed(s, h, localId) || s.channels[h].state == Start || s.channels[h].state == Free then s
    else Update(s, h, s.channels[h].(state := Free), GotClose(localId))
  }

  function Written(s: Adb, remoteId: nat, localId: nat): (t: Adb)
    requires s.Valid()
    ensures t.Valid()
  {
    var h := localId % 0x100;
    if Addressed(s, h, localId) && s.channels[h].remoteId == remoteId then
      Update(s, h, s.channels[h].(pendingAck := true), GotWrite(localId))
    else s
  }

  datatype Event =
    | Opens
    | Closes(h: nat)
    | Writes(h: nat, data: seq<byte>)
    | Sends                                  // ADBChannelTasks finds the sender free
    | OkayPacket(remoteId: nat, localId: nat)
    | ClosePacket(localId: nat)
    | WritePacket(remoteId: nat, localId: nat)

  predicate Enabled(s: Adb, e: Event) {
    s.Valid()
    && match e
       case Closes(h) => h < ADB_MAX_CHANNELS
       case Writes(h, _) => h < ADB_MAX_CHANNELS && s.channels[h].state == Idle
       case _ => true
  }

  function Step(s: Adb, e: Event): (t: Adb)
    requires Enabled(s, e)
    ensures t.Valid()
  {
    match e
    case Opens => Open(s)
    case Closes(h) => Close(s, h)
    case Writes(h, data) => Write(s, h, data)
    case Sends => Tasks(s)
    case OkayPacket(remoteId, localId) => Okay(s, remoteId, localId)
    case ClosePacket(localId) => Closed(s, localId)
    case WritePacket(remoteId, localId) => Written(s, remoteId, localId)
  }

  // --------------------------------------------- one write at a time on a channel

  /** The last write with an identifier has not been acknowledged. */
  function Unacknowledged(wire: seq<Wire>, localId: nat): bool {
    if wire == [] then false
    else
      var last := wire[|wire| - 1];
      if last.localId != localId || !(last.SentWrite? || last.GotOkay?) then Unacknowledged(wire[..|wire| - 1], localId)
      else last.SentWrite?
  }

  /** No write goes out before the one before it has been acknowledged. */
  ghost predicate OneAtATime(wire: seq<Wire>) {
    forall i :: 0 <= i < |wire| ==> FitsAt(wire, i)
  }

  predicate FitsAt(wire: seq<Wire>, i: nat)
    requires i < |wire|
  {
    wire[i].SentWrite? ==> !Unacknowledged(wire[..i], wire[i].localId)
  }

  predicate Writable(c: Channel) {
    c.state == Start || c.state == WaitOpen || c.state == Idle
  }

  ghost predicate Inv(s: Adb) {
    && s.Valid() && OneAtATime(s.wire)
    && (forall h :: 0 <= h < ADB_MAX_CHANNELS ==> ChannelInv(s, h))
    && (forall i :: 0 <= i < |s.wire| ==> s.wire[i].localId < 0x100 * s.counter) && s.counter > 0
  }

  /** Identifiers are not used twice, and a channel that may write has nothing unacknowledged. */
  predicate ChannelInv(s: Adb, h: nat)
    requires s.Valid() && h < ADB_MAX_CHANNELS
  {
    var c := s.channels[h];
    && c.localId < 0x100 * s.counter
    && (c.state != Free ==>
          c.localId % 0x100 == h && c.localId > 0 && (Writable(c) ==> !Unacknowledged(s.wire, c.localId)))
  }

  lemma {:induction false} NeverUsed(wire: seq<Wire>, localId: nat)
    requires forall i :: 0 <= i < |wire| ==> wire[i].localId < localId
    ensures !Unacknowledged(wire, localId)
  {
    if wire != [] { NeverUsed(wire[..|wire| - 1], localId); }
  }

  lemma {:induction false} WireMore(wire: seq<Wire>, w: Wire)
    requires OneAtATime(wire) && (w.SentWrite? ==> !Unacknowledged(wire, w.localId))
    ensures OneAtATime(wire + [w])
    ensures forall l: nat :: Unacknowledged(wire + [w], l)
                          == if l != w.localId || !(w.SentWrite? || w.GotOkay?) then Unacknowledged(wire, l) else w.SentWrite?
  {
    var more := wire + [w];
    assert more[..|more| - 1] == wire;
    forall i | 0 <= i < |more| ensures FitsAt(more, i) {
      if i < |wire| {
        assert FitsAt(wire, i) && more[..i] == wire[..i];
      } else {
        assert more[..i] == wire;
      }
    }
  }

  lemma {:induction false} TasksKeepInv(s: Adb)
    requires Inv(s)
    ensures Inv(Tasks(s))
  {
    var found := Scan(s.channels, s.current, ADB_MAX_CHANNELS);
    hide Scan, Unacknowledged;
    if found.Some? {
      var h := found.value;
      assert ChannelInv(s, h);
      var (c, packet) := Serve(s.channels[h]);
      WireMore(s.wire, packet);
      var t := Tasks(s);
      forall g | 0 <= g < ADB_MAX_CHANNELS ensures ChannelInv(t, g) {
        assert ChannelInv(s, g);
      }
    }
  }

  lemma {:induction false} IdOf(counter: nat, h: nat)
    requires h < ADB_MAX_CHANNELS
    ensures (0x100 * counter + h) % 0x100 == h && 0x100 * counter + h < 0x100 * (counter + 1)
  {
  }

  lemma {:induction false} OpenKeepsInv(s: Adb)
    requires Inv(s)
    ensures Inv(Open(s))
  {
    var free := FirstFree(s.channels, 0);
    hide FirstFree, Unacknowledged;
    if free.Some? {
      var h, t := free.value, Open(s);
      IdOf(s.counter, h);
      NeverUsed(s.wire, 0x100 * s.counter + h);
      WireMore(s.wire, AskedOpen(0x100 * s.counter + h));
      forall g | 0 <= g < ADB_MAX_CHANNELS ensures ChannelInv(t, g) {
        assert ChannelInv(s, g);
      }
    }
  }

  lemma {:induction false} UpdateKeepsInv(s: Adb, h: nat, c: Channel, w: Wire)
    requires Inv(s) && h < ADB_MAX_CHANNELS && c.localId == s.channels[h].localId == w.localId && !w.SentWrite?
    requires c.state != Free ==> s.channels[h].state != Free
    requires c.state != Free && Writable(c) ==> w.GotOkay? || !Unacknowledged(s.wire, c.localId)
    ensures Inv(Update(s, h, c, w))
  {
    WireMore(s.wire, w);
    hide Unacknowledged;
    var t := Update(s, h, c, w);
    assert ChannelInv(s, h);
    forall g | 0 <= g < ADB_MAX_CHANNELS ensures ChannelInv(t, g) {
      assert ChannelInv(s, g);
    }
  }

  lemma {:induction false} StepKeepsInv(s: Adb, e: Event)
    requires Inv(s) && Enabled(s, e)
    ensures Inv(Step(s, e))
  {
    hide Unacknowledged, OneAtATime;
    match e
    case Opens => OpenKeepsInv(s);
    case Closes(h) =>
      var c := s.channels[h];
      assert ChannelInv(s, h);
      if c.state != Free { UpdateKeepsInv(s, h, c.(state := CloseRequested), AskedClose(c.localId)); }
    case Writes(h, data) =>
      var c := s.channels[h];
      assert ChannelInv(s, h);
      UpdateKeepsInv(s, h, c.(data := Some(data)), AskedWrite(c.localId, data));
    case Sends => TasksKeepInv(s);
    case OkayPacket(remoteId, localId) => OkayKeepsInv(s, remoteId, localId);
    case ClosePacket(localId) => ClosedKeepsInv(s, localId);
    case WritePacket(remoteId, localId) => WrittenKeepsInv(s, remoteId, localId);
  }

  lemma {:induction false} OkayKeepsInv(s: Adb, remoteId: nat, localId: nat)
    requires Inv(s)
    ensures Inv(Okay(s, remoteId, localId))
  {
    hide Unacknowledged, OneAtATime;
    var h := localId % 0x100;
    if Addressed(s, h, localId) {
      var c := s.channels[h];
      assert ChannelInv(s, h);
      if c.state == WaitOpen {
        UpdateKeepsInv(s, h, c.(remoteId := remoteId, state := Idle), GotOpened(localId, remoteId));
      } else if c.state == WaitReady && c.remoteId == remoteId {
        UpdateKeepsInv(s, h, c.(data := None, state := Idle), GotOkay(localId));
      }
    }
  }

  lemma {:induction false} ClosedKeepsInv(s: Adb, localId: nat)
    requires Inv(s)
    ensures Inv(Closed(s, localId))
  {
    hide Unacknowledged, OneAtATime;
    var h := localId % 0x100;
    if Addressed(s, h, localId) && s.channels[h].state != Start && s.channels[h].state != Free {
      UpdateKeepsInv(s, h, s.channels[h].(state := Free), GotClose(localId));
    }
  }

  lemma {:induction false} WrittenKeepsInv(s: Adb, remoteId: nat, localId: nat)
    requires Inv(s)
    ensures Inv(Written(s, remoteId, localId))
  {
    hide Unacknowledged, OneAtATime;
    var h := localId % 0x100;
    if Addressed(s, h, localId) && s.channels[h].remoteId == remoteId {
      assert ChannelInv(s, h);
      UpdateKeepsInv(s, h, s.channels[h].(pendingAck := true), GotWrite(localId));
    }
  }

  predicate Possible(s: Adb, events: seq<Event>)
    decreases |events|
  {
    events == [] || (Enabled(s, events[0]) && Possible(Step(s, events[0]), events[1..]))
  }

  function Run(s: Adb, events: seq<Event>): (t: Adb)
    requires s.Valid() && Possible(s, events)
    ensures t.Valid()
    decreases |events|
  {
    if events == [] then s else Run(Step(s, events[0]), events[1..])
  }

  lemma {:induction false} RunKeepsInv(s: Adb, events: seq<Event>)
    requires Inv(s) && Possible(s, events)
    ensures Inv(Run(s, events))
    decreases |events|
  {
    if events != [] {
      StepKeepsInv(s, events[0]);
      hide Inv, Step, Enabled;
      RunKeepsInv(Step(s, events[0]), events[1..]);
    }
  }

  /** In every run, no second write goes out on a channel before the first has been acknowledged. */
  lemma {:induction false} WritesAreAcknowledged(events: seq<Event>)
    requires Possible(Init(), events)
    ensures OneAtATime(Run(Init(), events).wire)
  {
    RunKeepsInv(Init(), events);
  }

  // ------------------------------------------------------------- taking turns

  /** Channels that come before h when the sender looks for the next one. */
  function Ahead(current: nat, h: nat): (d: nat)
    requires current < ADB_MAX_CHANNELS && h < ADB_MAX_CHANNELS
    ensures d < ADB_MAX_CHANNELS
  {
    if h > current then h - current - 1 else h + ADB_MAX_CHANNELS - current - 1
  }

  /** The sender does not pass a channel that has something to send. */
  lemma {:induction false} ScanStops(channels: seq<Channel>, current: nat, n: nat, h: nat)
    requires |channels| == ADB_MAX_CHANNELS && current < ADB_MAX_CHANNELS && h < ADB_MAX_CHANNELS
    requires Eligible(channels[h]) && Ahead(current, h) < n
    ensures var r := Scan(channels, current, n);
            r.Some? && (r.value == h || Ahead(r.value, h) < Ahead(current, h))
    decreases n
  {
    if !Eligible(channels[Next(current)]) {
      assert Next(current) != h && Ahead(Next(current), h) == Ahead(current, h) - 1;
      ScanStops(channels, Next(current), n - 1, h);
    }
  }

  /** The channel has something to send at every turn of the sender, which never serves it. */
  predicate Waits(s: Adb, events: seq<Event>, h: nat)
    requires Possible(s, events) && h < ADB_MAX_CHANNELS
    decreases |events|
  {
    events == []
    || ((events[0] == Sends ==>
           Eligible(s.channels[h]) && Scan(s.channels, s.current, ADB_MAX_CHANNELS) != Some(h))
        && Waits(Step(s, events[0]), events[1..], h))
  }

  function Turns(events: seq<Event>): nat {
    if events == [] then 0 else (if events[0] == Sends then 1 else 0) + Turns(events[1..])
  }

  lemma {:induction false} OnlySendsMove(s: Adb, e: Event)
    requires Enabled(s, e) && e != Sends
    ensures Step(s, e).current == s.current
  {
  }

  lemma {:induction false} WaitIsShort(s: Adb, events: seq<Event>, h: nat)
    requires s.Valid() && Possible(s, events) && h < ADB_MAX_CHANNELS && Waits(s, events, h)
    ensures Turns(events) <= Ahead(s.current, h)
    decreases |events|
  {
    if events != [] {
      var t := Step(s, events[0]);
      if events[0] == Sends {
        ScanStops(s.channels, s.current, ADB_MAX_CHANNELS, h);
      } else {
        OnlySendsMove(s, events[0]);
      }
      hide Scan, Step, Enabled;
      WaitIsShort(t, events[1..], h);
    }
  }

  /**
   In every run, whatever else happens between the sender's turns: a channel that
   keeps having something to send is served within as many turns as there are
   channels.
   */
  lemma {:induction false} TurnsAreFair(before: seq<Event>, events: seq<Event>, h: nat)
    requires Possible(Init(), before) && Possible(Run(Init(), before), events) && h < ADB_MAX_CHANNELS
    requires Turns(events) >= ADB_MAX_CHANNELS
    ensures !Waits(Run(Init(), before), events, h)
  {
    RunKeepsInv(Init(), before);
    var s := Run(Init(), before);
    if Waits(s, events, h) { WaitIsShort(s, events, h); }
  }
}
