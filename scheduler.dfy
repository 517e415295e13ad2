/**
  The channel-hop branch of `loop`: `nothing_new` counts loop ticks without
  a new inventory entry (the capture callback resets it), and once it has
  reached 10 the next tick moves to the next channel of 1..14.
*/
module Scheduler {
  import opened Bytes

  const IdleLimit: nat := 10
  const FirstChannel: byte := 1
  const LastChannel: byte := 14

  /** The channel after `channel`: `channel++`, with 15 wrapping to 1. */
  function NextChannel(channel: byte): (r: byte)
    requires FirstChannel <= channel <= LastChannel
    ensures FirstChannel <= r <= LastChannel
    ensures r == if channel == LastChannel then FirstChannel else channel + 1
  {
    var c := ToByte(channel + 1);
    if c == LastChannel + 1 then FirstChannel else c
  }

  /** One loop tick: the new `channel`, the new `nothing_new`, and whether `wifi_set_channel` was called. */
  function Tick(channel: byte, nothingNew: byte): (r: (byte, byte, bool))
    requires FirstChannel <= channel <= LastChannel
    ensures FirstChannel <= r.0 <= LastChannel
    ensures nothingNew <= IdleLimit ==> r.1 <= IdleLimit
    ensures r.2 <==> nothingNew >= IdleLimit
    ensures nothingNew >= IdleLimit ==> r.0 == NextChannel(channel) && r.1 == 0
    ensures nothingNew < IdleLimit ==> r.0 == channel && r.1 == nothingNew + 1
  {
    if nothingNew >= IdleLimit then (NextChannel(channel), 0, true)
    else (channel, ToByte(nothingNew + 1), false)
  }

  /** `k` consecutive ticks with no discovery in between: (`channel`, `nothing_new`). */
  function Ticks(channel: byte, nothingNew: byte, k: nat): (r: (byte, byte))
    requires FirstChannel <= channel <= LastChannel
    ensures FirstChannel <= r.0 <= LastChannel
  {
    if k == 0 then (channel, nothingNew)
    else
      var (c, n) := Ticks(channel, nothingNew, k - 1);
      var (c', n', _) := Tick(c, n);
      (c', n')
  }

  /** Up to the count reaching 10 the channel stays, and the count grows by one per tick. */
  lemma {:induction false} IdleTicksStay(channel: byte, nothingNew: byte, k: nat)
    requires FirstChannel <= channel <= LastChannel
    requires nothingNew + k <= IdleLimit
    ensures Ticks(channel, nothingNew, k) == (channel, nothingNew + k)
  {
    if k > 0 {
      IdleTicksStay(channel, nothingNew, k - 1);
    }
  }

  /**
    From a fresh count, ten idle ticks leave the channel where it is, and the
    eleventh moves to the next channel and resets the count.
  */
  lemma HopAfterIdle(channel: byte)
    requires FirstChannel <= channel <= LastChannel
    ensures forall k :: 0 <= k <= IdleLimit ==> Ticks(channel, 0, k) == (channel, k)
    ensures Ticks(channel, 0, IdleLimit + 1) == (NextChannel(channel), 0)
  {
    forall k | 0 <= k <= IdleLimit ensures Ticks(channel, 0, k) == (channel, k) {
      IdleTicksStay(channel, 0, k);
    }
    IdleTicksStay(channel, 0, IdleLimit);
  }
}
