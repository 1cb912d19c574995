/**
 The state of app_layer_v1/sequencer.c and the loops over settings and cues, proved
 against module Sequencer.
 */
module SequencerState {
  import opened Bytes
  import opened Sequencer

  class State {
    const board: Board
    var open: bool
    const channelSettings: array<Channel>
    var numActiveChannels: nat
    var expectedCueSize: nat

    ghost predicate Valid()
      reads this, channelSettings
    {
      && board.Valid() && channelSettings.Length == MAX_CHANNELS && numActiveChannels <= MAX_CHANNELS
      && Consistent(Abs())
    }

    function Abs(): Config
      requires numActiveChannels <= channelSettings.Length
      reads this, channelSettings
    {
      Config(channelSettings[..numActiveChannels], expectedCueSize)
    }

    constructor (board: Board)
      requires board.Valid()
      ensures Valid() && fresh(channelSettings) && this.board == board && !open && Abs() == Config([], 0)
    {
      this.board, open, numActiveChannels, expectedCueSize := board, false, 0, 0;
      channelSettings := new Channel[MAX_CHANNELS](_ => Steps(0));
    }

    /** The loop over the settings. */
    method ConfigureChannels(settings: seq<byte>) returns (ok: bool)
      requires Valid()
      modifies this`numActiveChannels, this`expectedCueSize, channelSettings
      ensures Valid() && (Abs(), ok) == Configure(board, settings)
    {
      ghost var goal := Configure(board, settings);
      ConfigureSizes(board, settings);
      numActiveChannels, expectedCueSize := 0, 0;
      var at := 0;
      assert settings[0..] == settings;
      while at < |settings|
        invariant 0 <= at <= |settings| && numActiveChannels <= MAX_CHANNELS
        invariant ConfigureFrom(board, settings[at..], Abs()) == goal
      {
        if numActiveChannels == MAX_CHANNELS { return false; }
        var rest := settings[at..];
        var channel := TranslateSettings(board, rest);
        if channel == None { return false; }
        ghost var before := Abs();
        channelSettings[numActiveChannels] := channel.value;
        numActiveChannels := numActiveChannels + 1;
        expectedCueSize := expectedCueSize + CueSize(channel.value);
        assert Abs().channels == before.channels + [channel.value];
        assert rest[SettingsSize(channel.value)..] == settings[at + SettingsSize(channel.value)..];
        at := at + SettingsSize(channel.value);
      }
      return true;
    }

    method SequencerOpen(settings: seq<byte>) returns (ok: bool)
      requires Valid()
      modifies this, channelSettings
      ensures Valid()
      ensures old(open) ==> !ok && open && Abs() == old(Abs())
      ensures !old(open) ==> (Abs(), ok) == Configure(board, settings) && open == ok
    {
      if open { return false; }
      ok := ConfigureChannels(settings);
      open := ok;
    }

    method SequencerClose() returns (ok: bool)
      requires Valid()
      modifies this`open
      ensures Valid() && ok == old(open) && !open && Abs() == old(Abs())
    {
      ok, open := open, false;
    }

    method SequencerKill()
      requires board.Valid() && channelSettings.Length == MAX_CHANNELS
      modifies this
      ensures Valid() && !open && Abs() == Config([], 0)
    {
      open, numActiveChannels, expectedCueSize := false, 0, 0;
    }

    /** The loop over the channels' cues. */
    method DecodeCue(data: seq<byte>) returns (cue: Cue)
      requires Valid() && CueFits(Abs().channels, data)
      ensures cue == TranslateCue(Abs().channels, data)
    {
      ghost var channels := Abs().channels;
      cue := ClearCue();
      var at, i := 0, 0;
      while i < numActiveChannels
        invariant 0 <= i <= numActiveChannels && at == Offset(channels, i)
        invariant cue == TranslateSome(channels, data, i)
      {
        OffsetGrows(channels, i, |channels|);
        var c := channelSettings[i];
        assert c == channels[i];
        var size := CueSize(c);
        assert data[at..at + size] == Own(channels, data, i);
        cue := Apply(c, data[at..at + size], cue);
        at, i := at + size, i + 1;
      }
    }
  }
}
