/**
 The channel table of libadb/adb.c and the code that changes it, proved against
 module AdbChannels.
 */
module AdbState {
  import opened Bytes
  import opened AdbChannels

  class Channels {
    const channels: array<Channel>
    var currentChannel: nat
    var localIdCounter: nat

    ghost var wire: seq<Wire>

    ghost predicate Valid()
      reads this
    {
      channels.Length == ADB_MAX_CHANNELS && currentChannel < ADB_MAX_CHANNELS
    }

    ghost function Abs(): (s: Adb)
      requires Valid()
      reads this, channels
      ensures s.Valid()
    {
      Adb(channels[..], currentChannel, localIdCounter, wire)
    }

    /** ADBInit */
    constructor ()
      ensures Valid() && fresh(channels) && Abs() == AdbChannels.Init()
    {
      channels := new Channel[ADB_MAX_CHANNELS](_ => Channel(Free, None, 0, 0, false));
      currentChannel, localIdCounter, wire := 0, 1, [];
      new;
      assert channels[..] == AdbChannels.Init().channels;
    }

    /** The channel's number, or nothing when all are taken. */
    method ADBOpen() returns (handle: Option<nat>)
      requires Valid()
      modifies this`localIdCounter, this`wire, channels
      ensures Valid() && Abs() == Open(old(Abs())) && handle == FirstFree(old(channels[..]), 0)
    {
      var h := 0;
      while h < ADB_MAX_CHANNELS
        invariant 0 <= h <= ADB_MAX_CHANNELS && FirstFree(channels[..], h) == FirstFree(channels[..], 0)
        invariant channels[..] == old(channels[..]) && wire == old(wire) && localIdCounter == old(localIdCounter)
      {
        if channels[h].state == Free {
          channels[h] := Channel(Start, None, 0x100 * localIdCounter + h, channels[h].remoteId, false);
          wire := wire + [AskedOpen(0x100 * localIdCounter + h)];
          localIdCounter := localIdCounter + 1;
          return Some(h);
        }
        h := h + 1;
      }
      return None;
    }

    method ADBClose(handle: nat)
      requires Valid() && handle < ADB_MAX_CHANNELS
      modifies this`wire, channels
      ensures Abs() == Close(old(Abs()), handle)
    {
      if channels[handle].state != Free {
        wire := wire + [AskedClose(channels[handle].localId)];
        channels[handle] := channels[handle].(state := CloseRequested);
      }
    }

    method ADBWrite(handle: nat, data: seq<byte>)
      requires Valid() && handle < ADB_MAX_CHANNELS && channels[handle].state == Idle
      modifies this`wire, channels
      ensures Abs() == Write(old(Abs()), handle, data)
    {
      wire := wire + [AskedWrite(channels[handle].localId, data)];
      channels[handle] := channels[handle].(data := Some(data));
    }

    /** What the channel has to send, which it has sent then. */
    method SendFrom(h: nat)
      requires Valid() && h < ADB_MAX_CHANNELS && Eligible(channels[h])
      modifies this`wire, channels
      ensures var (c, packet) := Serve(old(channels[h]));
              channels[..] == old(channels[..])[h := c] && wire == old(wire) + [packet]
    {
      var c := channels[h];
      if c.state == Start {
        wire := wire + [SentOpen(c.localId)];
        channels[h] := c.(state := WaitOpen);
      } else if c.pendingAck {
        wire := wire + [SentOkay(c.localId, c.remoteId)];
        channels[h] := c.(pendingAck := false);
      } else if c.state == CloseRequested {
        wire := wire + [SentClose(c.localId, c.remoteId)];
        channels[h] := c.(state := WaitClose);
      } else {
        wire := wire + [SentWrite(c.localId, c.remoteId, c.data.value)];
        channels[h] := c.(state := WaitReady);
      }
    }

    method Advance()
      requires Valid()
      modifies this`currentChannel
      ensures Valid() && currentChannel == Next(old(currentChannel))
    {
      currentChannel := currentChannel + 1;
      if currentChannel == ADB_MAX_CHANNELS { currentChannel := 0; }
    }

    /** ADBChannelTasks, when the sender is free. */
    method ADBChannelTasks()
      requires Valid()
      modifies this`currentChannel, this`wire, channels
      ensures Valid() && Abs() == Tasks(old(Abs()))
    {
      hide Next, Eligible, Serve;
      ghost var start := currentChannel;
      var h := 0;
      while h < ADB_MAX_CHANNELS
        invariant 0 <= h <= ADB_MAX_CHANNELS && currentChannel < ADB_MAX_CHANNELS
        invariant currentChannel == Around(start, h)
        invariant Scan(channels[..], currentChannel, ADB_MAX_CHANNELS - h) == Scan(channels[..], start, ADB_MAX_CHANNELS)
        invariant channels[..] == old(channels[..]) && wire == old(wire)
      {
        AroundMore(start, h);
        Advance();
        if Eligible(channels[currentChannel]) {
          SendFrom(currentChannel);
          return;
        }
        h := h + 1;
      }
      AllAround(start);
    }

    method OkayReceived(remoteId: nat, localId: nat)
      requires Valid()
      modifies this`wire, channels
      ensures Abs() == Okay(old(Abs()), remoteId, localId)
    {
      var h := localId % 0x100;
      if h < ADB_MAX_CHANNELS && channels[h].localId == localId {
        var c := channels[h];
        if c.state == WaitOpen {
          channels[h] := c.(remoteId := remoteId, state := Idle);
          wire := wire + [GotOpened(localId, remoteId)];
        } else if c.state == WaitReady && c.remoteId == remoteId {
          channels[h] := c.(data := None, state := Idle);
          wire := wire + [GotOkay(localId)];
        }
      }
    }

    /** The callback's argument is left out: `notified` is whether it is told that the channel is gone. */
    method CloseReceived(localId: nat) returns (notified: bool)
      requires Valid()
      modifies this`wire, channels
      ensures Abs() == Closed(old(Abs()), localId)
    {
      var h := localId % 0x100;
      notified := false;
      if h < ADB_MAX_CHANNELS && channels[h].localId == localId {
        var c := channels[h];
        if c.state != Free && c.state != Start {
          channels[h] := c.(state := Free);
          wire := wire + [GotClose(localId)];
          notified := true;
        }
      }
    }

    /** `passed` is whether the data goes to the callback. */
    method WriteReceived(remoteId: nat, localId: nat, data: seq<byte>) returns (passed: bool)
      requires Valid()
      modifies this`wire, channels
      ensures Abs() == Written(old(Abs()), remoteId, localId)
    {
      var h := localId % 0x100;
      passed := false;
      if h < ADB_MAX_CHANNELS && channels[h].localId == localId && channels[h].remoteId == remoteId {
        passed := data != [] && channels[h].state != CloseRequested && channels[h].state != WaitClose;
        channels[h] := channels[h].(pendingAck := true);
        wire := wire + [GotWrite(localId)];
      }
    }
  }

  /** The channel reached from `start` after n steps. */
  function Around(start: nat, n: nat): (c: nat)
    requires start < ADB_MAX_CHANNELS
    ensures c < ADB_MAX_CHANNELS
  {
    if n == 0 then start else Next(Around(start, n - 1))
  }

  lemma AroundMore(start: nat, n: nat)
    requires start < ADB_MAX_CHANNELS
    ensures Around(start, n + 1) == Next(Around(start, n))
  {
  }

  /** Once around is back at the start. */
  lemma AllAround(start: nat)
    requires start < ADB_MAX_CHANNELS
    ensures Around(start, ADB_MAX_CHANNELS) == start
  {
    AroundIs(start, ADB_MAX_CHANNELS);
  }

  lemma {:induction false} AroundIs(start: nat, n: nat)
    requires start < ADB_MAX_CHANNELS && n <= ADB_MAX_CHANNELS
    ensures Around(start, n) == if start + n < ADB_MAX_CHANNELS then start + n else start + n - ADB_MAX_CHANNELS
  {
    if n > 0 { AroundIs(start, n - 1); }
  }
}
