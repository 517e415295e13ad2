/**
  The data-frame parser (`parse_client`): picks the access point and station
  addresses out of a data frame by its To DS / From DS bits (section 9.2.4.1
  of IEEE 802.11-2016) and reads a sequence value with the source's own,
  non-standard formula.
*/
module ClientParser {
  import opened Bytes

  /** `struct clientinfo`; `beacon` is the access point's address. */
  datatype ClientInfo = ClientInfo(
    beacon: seq<byte>,
    station: seq<byte>,
    rssi: byte,
    seqNum: int,
    err: bool)

  /** The four values of the two distribution-system bits. */
  datatype Direction = NotDs | ToDs | FromDs | DsToDs

  /** Bytes the parser reads: the frame header up to the sequence-control field. */
  const HeaderLen: nat := 24

  const Broadcast1: seq<byte> := [0x01, 0x00, 0x5e]
  const Broadcast2: seq<byte> := [0xff, 0xff, 0xff, 0xff, 0xff, 0xff]
  const Broadcast3: seq<byte> := [0x33, 0x33, 0x00]

  /** `frame[1] & 3`, as a direction. */
  function DirectionOf(flags: byte): (d: Direction)
    ensures d == NotDs <==> flags % 4 == 0
    ensures d == ToDs <==> flags % 4 == 1
    ensures d == FromDs <==> flags % 4 == 2
    ensures d == DsToDs <==> flags % 4 == 3
  {
    match LowBits2(flags)
    case 0 => NotDs
    case 1 => ToDs
    case 2 => FromDs
    case _ => DsToDs
  }

  /** `memcmp(frame + at, pattern, n) != 0`. */
  predicate Differs(frame: seq<byte>, at: nat, pattern: seq<byte>, n: nat)
    requires at + n <= |frame| && n <= |pattern|
  {
    frame[at..at + n] != pattern[..n]
  }

  /**
    The source's from-DS test of the destination address: it ORs three
    "differs from prefix" tests, where the evident purpose was a test against
    the three broadcast/multicast prefixes.
  */
  predicate NotBroadcast(frame: seq<byte>): (b: bool)
    requires |frame| >= HeaderLen
    ensures !b <==> frame[4..7] == Broadcast1 && frame[4..7] == Broadcast2[..3] && frame[4..7] == Broadcast3
  {
    Differs(frame, 4, Broadcast1, 3) || Differs(frame, 4, Broadcast2, 3) || Differs(frame, 4, Broadcast3, 3)
  }

  /** The prefixes have different first bytes, so no address matches all three and the test always holds. */
  lemma NotBroadcastAlways(frame: seq<byte>)
    requires |frame| >= HeaderLen
    ensures NotBroadcast(frame)
  {
    if !Differs(frame, 4, Broadcast1, 3) {
      assert frame[4] == 0x01;
      assert Broadcast2[..3][0] == 0xff;
    }
  }

  /** The offsets of the (access point, station) addresses in the frame. */
  function Roles(frame: seq<byte>): (r: (nat, nat))
    requires |frame| >= HeaderLen
    ensures r.0 + MacLen <= HeaderLen && r.1 + MacLen <= HeaderLen
  {
    match DirectionOf(frame[1])
    case NotDs => (16, 10)
    case ToDs => (4, 10)
    case FromDs => (10, if NotBroadcast(frame) then 16 else 4)
    case DsToDs => (10, 4)
  }

  /** `frame[23] * 0xFF + (frame[22] & 0xF0)`, stored in a `uint16_t`. */
  function SeqOf(frame: seq<byte>): (s: int)
    requires |frame| >= HeaderLen
    ensures s == frame[23] * 0xFF + HighNibble(frame[22])
    ensures s <= 255 * 255 + 0xF0
  {
    ToU16(frame[23] * 0xFF + HighNibble(frame[22]))
  }

  /** `parse_client(frame, |frame|, rssi)`. */
  function ParseClient(frame: seq<byte>, rssi: int): (ci: ClientInfo)
    requires |frame| >= HeaderLen
    ensures !ci.err
    ensures |ci.beacon| == MacLen && |ci.station| == MacLen
    ensures ci.rssi == ToByte(-rssi)
    ensures ci.seqNum == SeqOf(frame)
  {
    var (ap, sta) := Roles(frame);
    ClientInfo(Slice(frame, ap, MacLen), Slice(frame, sta, MacLen), ToByte(-rssi), SeqOf(frame), false)
  }

  /**
    The address table: with `ds = frame[1] & 3`, (AP, station) come from
    offsets 0: (16, 10), 1: (4, 10), 2: (10, 16) whatever the destination,
    3: (10, 4).
  */
  lemma AddressTable(frame: seq<byte>, rssi: int)
    requires |frame| >= HeaderLen
    ensures var ci, ds := ParseClient(frame, rssi), frame[1] % 4;
      (ds == 0 ==> ci.beacon == frame[16..22] && ci.station == frame[10..16]) &&
      (ds == 1 ==> ci.beacon == frame[4..10] && ci.station == frame[10..16]) &&
      (ds == 2 ==> ci.beacon == frame[10..16] && ci.station == frame[16..22]) &&
      (ds == 3 ==> ci.beacon == frame[10..16] && ci.station == frame[4..10])
  {
    NotBroadcastAlways(frame);
  }
}
