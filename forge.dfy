/**
  The forged frames: the deauthentication burst (`deauth_client`, a frame of
  section 9.3.3.12 of IEEE 802.11-2016) and the spoofed beacon (`fake_beacon`).
  These are the frames as values; the class in the Sniffer module builds
  them in place and logs what it sends.
*/
module Forge {
  import opened Bytes
  import opened ClientParser

  /** `deauth_template`: frame control 0xc0 (deauthentication); bytes 24-25 are the little-endian reason code 1. */
  const DeauthTemplate: seq<byte> :=
    [0xc0, 0x00] + Zeros(20) + [0x70, 0x6a, 0x01, 0x00]
  const DeauthLen: nat := 26
  const DeauthBurst: nat := 16
  const DeauthBufLen: nat := 64

  /** The 67 initialised bytes of `beacon_packet`. */
  const BeaconHead: seq<byte> :=
    [0x80, 0x00, 0x00, 0x00, 0xff, 0xff, 0xff, 0xff, 0xff, 0xff, 0x01, 0x02, 0x03, 0x04, 0x05, 0x06] +
    [0x01, 0x02, 0x03, 0x04, 0x05, 0x06, 0xc0, 0x6c, 0x83, 0x51, 0xf7, 0x8f, 0x0f, 0x00, 0x00, 0x00] +
    [0x64, 0x00, 0x01, 0x04, 0x00, 0x10, 0x72, 0x72, 0x72, 0x72, 0x72, 0x72, 0x72, 0x72, 0x72, 0x72] +
    [0x72, 0x72, 0x72, 0x72, 0x72, 0x72, 0x01, 0x08, 0x82, 0x84, 0x8b, 0x96, 0x24, 0x30, 0x48, 0x6c] +
    [0x03, 0x01, 0x04]
  /** `beacon_packet`: the initialised bytes, the rest of the 128 zero. */
  const BeaconTemplate: seq<byte> := BeaconHead + Zeros(61)
  const BeaconPacketLen: nat := 128
  /** Bytes of `beacon_packet` actually transmitted. */
  const FakeBeaconLen: nat := 57
  const TransmitterOffset: nat := 10
  const FakeBssidOffset: nat := 16
  const FakeSsidOffset: nat := 38
  const FakeSsidLen: nat := 16

  /** The sequence value of frame `i` of a burst: `uint16_t seq = ci.seq + 0x10 * i`. */
  function BurstSeq(start: int, i: nat): (s: int)
    ensures 0 <= s < 0x1_0000
    ensures s == (start + 16 * i) % 0x1_0000
  {
    ToU16(start + 16 * i)
  }

  /** The destination, source and BSSID fields filled into the template. */
  function DeauthBase(station: seq<byte>, ap: seq<byte>): (f: seq<byte>)
    requires |station| == MacLen && |ap| == MacLen
    ensures |f| == DeauthLen
    ensures f[4..10] == station && f[10..16] == ap && f[16..22] == ap
    ensures f[..4] == DeauthTemplate[..4] && f[22..] == DeauthTemplate[22..]
  {
    var f := Patch(Patch(Patch(DeauthTemplate, 4, station), 10, ap), 16, ap);
    assert f[..4] == DeauthTemplate[..4];
    assert f[22..] == DeauthTemplate[22..];
    f
  }

  /** Frame `i` of the deauthentication burst for `ci`. */
  function DeauthFrame(ci: ClientInfo, i: nat): (f: seq<byte>)
    requires |ci.station| == MacLen && |ci.beacon| == MacLen
    ensures |f| == DeauthLen
    ensures f[4..10] == ci.station && f[10..16] == ci.beacon && f[16..22] == ci.beacon
    ensures f[..4] == DeauthTemplate[..4] && f[24..] == DeauthTemplate[24..]
    ensures var s := BurstSeq(ci.seqNum, i); f[22] == s % 255 && f[23] == (s / 255) % 256
  {
    var s := BurstSeq(ci.seqNum, i);
    var base := DeauthBase(ci.station, ci.beacon);
    base[22 := s % 0xFF][23 := ToByte(s / 0xFF)]
  }

  /** The whole burst: 16 frames of 26 bytes. */
  function DeauthFrames(ci: ClientInfo): (fs: seq<seq<byte>>)
    requires |ci.station| == MacLen && |ci.beacon| == MacLen
    ensures |fs| == DeauthBurst
    ensures forall i :: 0 <= i < DeauthBurst ==> fs[i] == DeauthFrame(ci, i) && |fs[i]| == DeauthLen
  {
    seq(DeauthBurst, i requires 0 <= i => DeauthFrame(ci, i))
  }

  /**
    Below 65280 the split `(s % 255, s / 255)` is undone by `hi * 255 + lo`,
    so consecutive frames carry values 16 apart (while the 16-bit sum does not
    wrap); the high byte is truncated only for the last 256 values of `s`.
  */
  lemma DeauthSeqSplit(ci: ClientInfo, i: nat)
    requires |ci.station| == MacLen && |ci.beacon| == MacLen
    ensures var f, s := DeauthFrame(ci, i), BurstSeq(ci.seqNum, i);
      (s < 255 * 256 ==> f[23] as int * 255 + f[22] as int == s) &&
      (s >= 255 * 256 ==> f[23] == s / 255 - 256)
  {
    var s := BurstSeq(ci.seqNum, i);
    assert s / 255 <= 257 by {
      assert s < 255 * 258;
    }
  }

  /**
    Reading a burst frame's sequence field back with the station parser's
    formula gives the value minus the low nibble of `s % 255`: the two
    custom encodings are no round trip.
  */
  lemma DeauthSeqReadBack(ci: ClientInfo, i: nat)
    requires |ci.station| == MacLen && |ci.beacon| == MacLen
    requires BurstSeq(ci.seqNum, i) < 255 * 256
    ensures var s := BurstSeq(ci.seqNum, i);
      SeqOf(DeauthFrame(ci, i)) == s - (s % 255) % 16
  {
    DeauthSeqSplit(ci, i);
  }

  /** `n` transmissions of the same frame. */
  function Repeat(frame: seq<byte>, n: nat): (fs: seq<seq<byte>>)
    ensures |fs| == n && forall i :: 0 <= i < n ==> fs[i] == frame
  {
    seq(n, _ => frame)
  }

  /** `strncpy(dst, src, n)` for a C string `src` without its terminator. */
  function StrNCopy(src: seq<byte>, n: nat): (r: seq<byte>)
    requires forall i :: 0 <= i < |src| ==> src[i] != 0
    ensures |r| == n
    ensures forall i :: 0 <= i < n ==> r[i] == if i < |src| then src[i] else 0
  {
    if |src| >= n then src[..n] else src + Zeros(n - |src|)
  }

  /** `beacon_packet` after `fake_beacon` patched it with address `rnd` and SSID `ssid`. */
  function FakeBeaconPacket(packet: seq<byte>, ssid: seq<byte>, rnd: seq<byte>): (r: seq<byte>)
    requires |packet| == BeaconPacketLen && |rnd| == MacLen
    requires forall i :: 0 <= i < |ssid| ==> ssid[i] != 0
    ensures |r| == BeaconPacketLen
    ensures r[TransmitterOffset..TransmitterOffset + MacLen] == rnd
    ensures r[FakeBssidOffset..FakeBssidOffset + MacLen] == rnd
    ensures r[FakeSsidOffset..FakeSsidOffset + FakeSsidLen] == StrNCopy(ssid, FakeSsidLen)
    ensures forall i :: 0 <= i < BeaconPacketLen ==>
      (!(TransmitterOffset <= i < FakeBssidOffset + MacLen) && !(FakeSsidOffset <= i < FakeSsidOffset + FakeSsidLen)
       ==> r[i] == packet[i])
  {
    Patch(Patch(Patch(packet, TransmitterOffset, rnd), FakeBssidOffset, rnd), FakeSsidOffset, StrNCopy(ssid, FakeSsidLen))
  }

  /**
    From the initial template, the spoofed frame is a beacon (frame control
    0x80) that advertises an SSID
    element of length 16 and the first byte of the supported-rates element,
    and the 57 bytes sent cut that element short after one rate.
  */
  lemma FakeBeaconLayout(ssid: seq<byte>, rnd: seq<byte>)
    requires |rnd| == MacLen
    requires forall i :: 0 <= i < |ssid| ==> ssid[i] != 0
    ensures var f := FakeBeaconPacket(BeaconTemplate, ssid, rnd)[..FakeBeaconLen];
      f[0] == 0x80 && f[36] == 0x00 && f[37] == FakeSsidLen &&
      f[54..] == [0x01, 0x08, 0x82]
  {
    var t, p := BeaconTemplate, FakeBeaconPacket(BeaconTemplate, ssid, rnd);
    assert forall i :: 0 <= i < |BeaconHead| ==> t[i] == BeaconHead[i];
    assert p[0] == t[0];
    assert p[..FakeBeaconLen][54..] == [p[54], p[55], p[56]];
  }
}
