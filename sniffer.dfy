/**
  The sniffer's global state and the operations on it: the capture callback
  (`parse_packet`), the channel-hop branch of `loop`, and the two forged-frame
  senders. The radio primitive `wifi_send_pkt_freedom` is a ghost log of the
  transmitted bytes; `wifi_set_channel` is a ghost log of the channels asked
  for. Each callback invocation and each loop tick is one atomic step.
*/
module Sniffer {
  import opened Bytes
  import opened BeaconParser
  import opened ClientParser
  import opened Inventory
  import opened Scheduler
  import opened Forge

  /** Capture record lengths: the radio header alone, and a management frame. */
  const ControlOnlyLen: nat := 12
  const ManagementLen: nat := 128
  const BeaconBodyLen: nat := 112
  const DataBodyLen: nat := 36
  /** Frame-control bytes of a data frame and a QoS data frame. */
  const DataFrame: byte := 0x08
  const QosDataFrame: byte := 0x88

  function BeaconKey(bi: BeaconInfo): seq<byte> { bi.beacon }
  function StationKey(ci: ClientInfo): seq<byte> { ci.station }

  /** What every stored beacon satisfies: not flagged, with a consistent SSID. */
  predicate StoredBeacon(bi: BeaconInfo) {
    !bi.err && WellFormed(bi) && SsidConsistent(bi)
  }

  /** What every stored client satisfies: not flagged, and its two addresses differ. */
  predicate StoredClient(ci: ClientInfo) {
    !ci.err && |ci.station| == MacLen && |ci.beacon| == MacLen && ci.station != ci.beacon
  }

  /**
    One guarded store and its effect on `nothing_new`: a record that is not
    accepted changes nothing; an accepted one is stored, and the counter goes
    to 0 exactly when its key was new.
  */
  function Admit<T>(t: Table<T>, nothingNew: byte, rec: T, key: T -> seq<byte>, accept: bool): (r: (Table<T>, byte))
    requires |t.slots| == Capacity && t.count <= Capacity && t.index < Capacity
    ensures !accept ==> r == (t, nothingNew)
    ensures accept ==> r.0 == Upsert(t, rec, key).0
    ensures r.1 == 0 || r.1 == nothingNew
    ensures r.1 != nothingNew <==> nothingNew != 0 && accept && !Occurs(t.slots, t.count, key(rec), key)
  {
    if accept then
      var (t', known) := Upsert(t, rec, key);
      (t', if known then nothingNew else 0)
    else
      (t, nothingNew)
  }

  /** `parse_packet` stores a data-frame record only for these frame types and distinct addresses. */
  predicate ClientAccepted(body: seq<byte>, ci: ClientInfo): (b: bool)
    requires |body| > 0
    ensures b ==> !ci.err && ci.beacon != ci.station
    ensures b ==> body[0] == 0x08 || body[0] == 0x88
  {
    (body[0] == DataFrame || body[0] == QosDataFrame) && ci.beacon != ci.station && !ci.err
  }

  /**
    On a parsed data frame the `err` test never rejects: the record is stored
    exactly when the frame is a (QoS) data frame whose access-point and
    station address fields, as the direction bits pick them, differ.
  */
  lemma ClientAcceptedOnFrame(body: seq<byte>, rssi: int)
    requires |body| == DataBodyLen
    ensures var (ap, sta) := Roles(body);
      ClientAccepted(body, ParseClient(body, rssi)) <==>
        (body[0] == DataFrame || body[0] == QosDataFrame) && body[ap..ap + MacLen] != body[sta..sta + MacLen]
  {
    var (ap, sta) := Roles(body);
    var ci := ParseClient(body, rssi);
    assert ci.beacon == body[ap..ap + MacLen] && ci.station == body[sta..sta + MacLen];
  }

  /**
    The beacons `parse_packet` stores are never flagged and carry consistent
    SSIDs, so an inventory holding only such records keeps holding only such
    records, with distinct BSSIDs.
  */
  lemma AdmitKeepsBeacons(t: Table<BeaconInfo>, nothingNew: byte, body: seq<byte>, rssi: int, stale: seq<byte>)
    requires TableValid(t, BeaconKey) && AllOccupied(t, StoredBeacon)
    requires |body| == BeaconBodyLen && |stale| == SsidBufLen
    ensures var bi := BeaconOf(body, rssi, stale);
      var t' := Admit(t, nothingNew, bi, BeaconKey, !bi.err).0;
      TableValid(t', BeaconKey) && AllOccupied(t', StoredBeacon)
  {
    var bi := BeaconOf(body, rssi, stale);
    if !bi.err {
      UpsertPreservesValid(t, bi, BeaconKey);
      UpsertKeepsAll(t, bi, BeaconKey, StoredBeacon);
    }
  }

  /**
    The clients `parse_packet` stores have two distinct six-byte addresses,
    so an inventory holding only such records keeps holding only such
    records, with distinct station addresses.
  */
  lemma AdmitKeepsClients(t: Table<ClientInfo>, nothingNew: byte, body: seq<byte>, rssi: int)
    requires TableValid(t, StationKey) && AllOccupied(t, StoredClient)
    requires |body| == DataBodyLen
    ensures var ci := ParseClient(body, rssi);
      var t' := Admit(t, nothingNew, ci, StationKey, ClientAccepted(body, ci)).0;
      TableValid(t', StationKey) && AllOccupied(t', StoredClient)
  {
    var ci := ParseClient(body, rssi);
    if ClientAccepted(body, ci) {
      UpsertPreservesValid(t, ci, StationKey);
      UpsertKeepsAll(t, ci, StationKey, StoredClient);
    }
  }

  class Sniffer {
    const beacons: Inventory<BeaconInfo>
    const clients: Inventory<ClientInfo>
    const beaconPacket: array<byte>
    var channel: byte
    var nothingNew: byte
    /** The frames handed to `wifi_send_pkt_freedom`, in order (each is `buf[..len]`). */
    ghost var txLog: seq<seq<byte>>
    /** The channels handed to `wifi_set_channel` by the loop, in order. */
    ghost var tuned: seq<byte>

    ghost predicate Valid()
      reads this, beacons, beacons.slots, clients, clients.slots
    {
      beacons.Valid() && clients.Valid() &&
      beacons.key == BeaconKey && clients.key == StationKey &&
      beaconPacket.Length == BeaconPacketLen &&
      FirstChannel <= channel <= LastChannel && nothingNew <= IdleLimit
    }

    /** The globals as the program starts: empty inventories, channel 1, the beacon template. */
    constructor ()
      ensures Valid() && fresh(beacons) && fresh(clients) && fresh(beaconPacket)
      ensures fresh(beacons.slots) && fresh(clients.slots)
      ensures beacons.count == 0 && clients.count == 0
      ensures channel == 1 && nothingNew == 0
      ensures beaconPacket[..] == BeaconTemplate
      ensures txLog == [] && tuned == []
    {
      beacons := new Inventory(BeaconKey);
      clients := new Inventory(StationKey);
      beaconPacket := new byte[BeaconPacketLen](i => if 0 <= i < BeaconPacketLen then BeaconTemplate[i] else 0);
      channel, nothingNew := 1, 0;
      txLog, tuned := [], [];
    }

    /**
      `parse_packet`: the capture callback for a record of `len` bytes whose
      frame body is `body` and whose signal strength is `rssi`. `stale` is the
      indeterminate initial SSID buffer of the parsed beacon record.
    */
    method ParsePacket(len: nat, body: seq<byte>, rssi: int, stale: seq<byte>)
      requires Valid()
      requires len < 0x1_0000 && |stale| == SsidBufLen
      requires len == ManagementLen ==> |body| == BeaconBodyLen
      requires len != ControlOnlyLen && len != ManagementLen ==> |body| == DataBodyLen
      modifies this, beacons, beacons.slots, clients, clients.slots
      ensures Valid()
      ensures channel == old(channel) && txLog == old(txLog) && tuned == old(tuned)
      ensures len == ControlOnlyLen ==>
        beacons.Abs() == old(beacons.Abs()) && clients.Abs() == old(clients.Abs()) && nothingNew == old(nothingNew)
      ensures len == ManagementLen ==>
        var bi := BeaconOf(body, rssi, stale);
        clients.Abs() == old(clients.Abs()) &&
        (beacons.Abs(), nothingNew) == Admit(old(beacons.Abs()), old(nothingNew), bi, BeaconKey, !bi.err)
      ensures len != ControlOnlyLen && len != ManagementLen ==>
        var ci := ParseClient(body, rssi);
        beacons.Abs() == old(beacons.Abs()) &&
        (clients.Abs(), nothingNew) == Admit(old(clients.Abs()), old(nothingNew), ci, StationKey, ClientAccepted(body, ci))
    {
      if len == ControlOnlyLen {
        // The radio header alone: nothing to parse.
      } else if len == ManagementLen {
        var bi := ParseBeacon(body, rssi, stale);
        AdmitBeacon(bi);
      } else {
        var ci := ParseClient(body, rssi);
        AdmitClient(ci, ClientAccepted(body, ci));
      }
    }

    /** The beacon branch: an unflagged record is stored, and a new BSSID resets the idle counter. */
    method AdmitBeacon(bi: BeaconInfo)
      requires Valid()
      modifies this`nothingNew, beacons, beacons.slots
      ensures Valid()
      ensures clients.Abs() == old(clients.Abs())
      ensures (beacons.Abs(), nothingNew) == Admit(old(beacons.Abs()), old(nothingNew), bi, BeaconKey, !bi.err)
    {
      if !bi.err {
        var known := beacons.Store(bi);
        if !known {
          nothingNew := 0;
        }
      }
    }

    /**
      The data-frame branch: `accept` is the frame-type test, the address
      comparison and `ci.err == 0`, which the source tests in that order
      before `store_client(ci) == 0`.
    */
    method AdmitClient(ci: ClientInfo, accept: bool)
      requires Valid()
      modifies this`nothingNew, clients, clients.slots
      ensures Valid()
      ensures beacons.Abs() == old(beacons.Abs())
      ensures (clients.Abs(), nothingNew) == Admit(old(clients.Abs()), old(nothingNew), ci, StationKey, accept)
    {
      if accept {
        var known := clients.Store(ci);
        if !known {
          nothingNew := 0;
        }
      }
    }

    /** The channel-hop branch at the top of `loop`. */
    method LoopTick()
      requires Valid()
      modifies this`channel, this`nothingNew, this`tuned
      ensures Valid()
      ensures var r := Tick(old(channel), old(nothingNew));
        channel == r.0 && nothingNew == r.1 && tuned == old(tuned) + (if r.2 then [r.0] else [])
    {
      if nothingNew >= IdleLimit {
        nothingNew := 0;
        channel := ToByte(channel + 1);
        if channel == LastChannel + 1 {
          channel := FirstChannel;
        }
        tuned := tuned + [channel];
      } else {
        nothingNew := ToByte(nothingNew + 1);
      }
    }

    /** The four `memcpy`s that open `deauth_client`. */
    static method FillDeauth(packet: array<byte>, ci: ClientInfo)
      requires packet.Length == DeauthBufLen
      requires |ci.station| == MacLen && |ci.beacon| == MacLen
      modifies packet
      ensures packet[..DeauthLen] == DeauthBase(ci.station, ci.beacon)
    {
      MemCpy(packet, 0, DeauthTemplate);
      PatchPrefix(old(packet[..]), 0, DeauthTemplate, DeauthLen);
      assert packet[..DeauthLen] == DeauthTemplate;
      ghost var p0 := packet[..];
      MemCpy(packet, 4, ci.station);
      PatchPrefix(p0, 4, ci.station, DeauthLen);
      ghost var p1 := packet[..];
      MemCpy(packet, 10, ci.beacon);
      PatchPrefix(p1, 10, ci.beacon, DeauthLen);
      ghost var p2 := packet[..];
      MemCpy(packet, 16, ci.beacon);
      PatchPrefix(p2, 16, ci.beacon, DeauthLen);
    }

    /** `deauth_client`: sends the 16 frames of the burst for `ci`, 26 bytes each. */
    method DeauthClient(ci: ClientInfo)
      requires |ci.station| == MacLen && |ci.beacon| == MacLen
      modifies this`txLog
      ensures txLog == old(txLog) + DeauthFrames(ci)
    {
      var packet := new byte[DeauthBufLen];
      FillDeauth(packet, ci);
      ghost var base := DeauthBase(ci.station, ci.beacon);
      var i := 0;
      while i < DeauthBurst
        invariant 0 <= i <= DeauthBurst
        invariant packet[..22] == base[..22] && packet[24..DeauthLen] == base[24..]
        invariant txLog == old(txLog) + DeauthFrames(ci)[..i]
      {
        var s := ToU16(ci.seqNum + 16 * i);
        packet[22] := s % 0xFF;
        packet[23] := ToByte(s / 0xFF);
        assert packet[..DeauthLen] == DeauthFrame(ci, i);
        txLog := txLog + [packet[..DeauthLen]];
        assert DeauthFrames(ci)[..i + 1] == DeauthFrames(ci)[..i] + [DeauthFrame(ci, i)];
        i := i + 1;
      }
    }

    /**
      `fake_beacon`: for a non-empty `ssid` and a positive `packets`, patches
      `beacon_packet` with the six octets `rnd` (the six `random(256)` draws)
      and the SSID, then sends its first 57 bytes `packets` times.
    */
    method FakeBeacon(ssid: seq<byte>, packets: byte, rnd: seq<byte>)
      requires Valid() && |rnd| == MacLen
      requires forall i :: 0 <= i < |ssid| ==> ssid[i] != 0
      modifies beaconPacket, this`txLog
      ensures Valid()
      ensures |ssid| > 0 && packets > 0 ==>
        beaconPacket[..] == FakeBeaconPacket(old(beaconPacket[..]), ssid, rnd) &&
        txLog == old(txLog) + Repeat(beaconPacket[..FakeBeaconLen], packets)
      ensures !(|ssid| > 0 && packets > 0) ==> beaconPacket[..] == old(beaconPacket[..]) && txLog == old(txLog)
    {
      if |ssid| > 0 && packets > 0 {
        MemCpy(beaconPacket, TransmitterOffset, rnd);
        MemCpy(beaconPacket, FakeBssidOffset, rnd);
        MemCpy(beaconPacket, FakeSsidOffset, StrNCopy(ssid, FakeSsidLen));
        ghost var patched := beaconPacket[..];
        ghost var sent := beaconPacket[..FakeBeaconLen];
        var i: byte := 0;
        while i < packets
          invariant i <= packets
          invariant beaconPacket[..] == patched
          invariant txLog == old(txLog) + Repeat(sent, i)
        {
          txLog := txLog + [beaconPacket[..FakeBeaconLen]];
          assert Repeat(sent, i + 1) == Repeat(sent, i) + [sent];
          i := i + 1;
        }
      }
    }
  }
}
