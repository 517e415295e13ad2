/**
  The beacon parser (`parse_beacon`): reads the BSSID, the SSID element
  (section 9.4.2.2 of IEEE 802.11-2016) and the DSSS Parameter Set element
  (section 9.4.2.4) out of the 112-byte beacon body the capture subsystem
  delivers.

  The source reads the element header and value bytes without comparing them
  with `framelen`. This model adds a guard instead of a precondition: the walk
  stops, leaving the record as it is, at the first element whose bytes the
  source would read lie past the end of the body (`Fits`).
*/
module BeaconParser {
  import opened Bytes

  /** `struct beaconinfo`; `beacon` is the BSSID, `ssid` the 33-byte buffer. */
  datatype BeaconInfo = BeaconInfo(
    beacon: seq<byte>,
    ssid: seq<byte>,
    ssidLen: byte,
    channel: byte,
    rssi: byte,
    err: bool)

  const SsidBufLen: nat := 33
  const MaxSsidLen: nat := 32
  /** The 24-byte MAC header plus the 12 bytes of fixed beacon fields. */
  const ElementsStart: nat := 36
  /** Offset of Address 3 (the BSSID) in a management frame. */
  const BssidOffset: nat := 10
  const TagSsid: byte := 0x00
  const TagChannel: byte := 0x03
  /** Enough body for the first element to be a complete SSID element of any accepted length. */
  const MinFullBody: nat := ElementsStart + 2 + MaxSsidLen

  predicate WellFormed(bi: BeaconInfo) {
    |bi.beacon| == MacLen && |bi.ssid| == SsidBufLen
  }

  /** The invariant of a record that is not flagged: the length is in range and the buffer past it is zero. */
  predicate SsidConsistent(bi: BeaconInfo) {
    |bi.ssid| == SsidBufLen && bi.ssidLen <= MaxSsidLen &&
    forall i :: bi.ssidLen <= i < SsidBufLen ==> bi.ssid[i] == 0
  }

  /** Either flagged as erroneous or consistent. */
  predicate Sound(bi: BeaconInfo) {
    bi.err || SsidConsistent(bi)
  }

  /** Every byte the source reads for the element at `pos` lies inside the frame. */
  predicate Fits(frame: seq<byte>, pos: nat) {
    pos + 1 < |frame| &&
    (frame[pos] == TagSsid && 1 <= frame[pos + 1] <= MaxSsidLen ==> pos + 2 + frame[pos + 1] <= |frame|) &&
    (frame[pos] == TagChannel ==> pos + 2 < |frame|)
  }

  /** Where the walk goes after the element at `pos`: past its tag, length and value. */
  function NextElement(frame: seq<byte>, pos: nat): (r: nat)
    requires pos + 1 < |frame|
    ensures r >= pos + 2
  {
    pos + frame[pos + 1] + 2
  }

  /** The effect of the element at `pos` on the record (one turn of the `switch`). */
  function Apply(frame: seq<byte>, pos: nat, bi: BeaconInfo): (r: BeaconInfo)
    requires Fits(frame, pos)
    ensures r.beacon == bi.beacon && r.rssi == bi.rssi
    ensures frame[pos] != TagChannel ==> r.channel == bi.channel
    ensures frame[pos] == TagChannel ==> r.channel == frame[pos + 2]
    ensures frame[pos] != TagSsid ==> r.ssid == bi.ssid && r.ssidLen == bi.ssidLen && r.err == bi.err
    ensures frame[pos] == TagSsid ==> r.ssidLen == frame[pos + 1]
    ensures frame[pos] == TagSsid && frame[pos + 1] == 0 ==>
      r.ssid == Zeros(SsidBufLen) && r.err == bi.err
    ensures frame[pos] == TagSsid && 1 <= frame[pos + 1] <= MaxSsidLen ==>
      |r.ssid| == SsidBufLen && !r.err &&
      r.ssid[..frame[pos + 1]] == frame[pos + 2..pos + 2 + frame[pos + 1]] &&
      forall i :: frame[pos + 1] <= i < SsidBufLen ==> r.ssid[i] == 0
    ensures frame[pos] == TagSsid && frame[pos + 1] > MaxSsidLen ==> r.err && r.ssid == bi.ssid
    ensures WellFormed(bi) ==> WellFormed(r)
    ensures Sound(bi) ==> Sound(r)
  {
    var tag, len := frame[pos], frame[pos + 1];
    if tag == TagSsid then
      // `ssid_len` is a uint8_t, so the source's `ssid_len < 0` test never fires.
      if len == 0 then bi.(ssidLen := 0, ssid := Zeros(SsidBufLen))
      else if len > MaxSsidLen then bi.(ssidLen := len, err := true)
      else bi.(ssidLen := len, ssid := Slice(frame, pos + 2, len) + Zeros(SsidBufLen - len), err := false)
    else if tag == TagChannel then
      bi.(channel := frame[pos + 2])
    else
      bi
  }

  /** The `while (pos < framelen)` walk over the information elements, from `pos` on. */
  function Walk(frame: seq<byte>, pos: nat, bi: BeaconInfo): (r: BeaconInfo)
    decreases |frame| - pos
    ensures r.beacon == bi.beacon && r.rssi == bi.rssi
    ensures WellFormed(bi) ==> WellFormed(r)
    ensures Sound(bi) ==> Sound(r)
  {
    if pos < |frame| && Fits(frame, pos) then
      var next := Apply(frame, pos, bi);
      if frame[pos] == TagChannel then next else Walk(frame, NextElement(frame, pos), next)
    else
      bi
  }

  /** The record before the walk: `ssid` holds whatever the stack held (`stale`). */
  function Fresh(rssi: int, stale: seq<byte>): (r: BeaconInfo)
    ensures !r.err && r.ssidLen == 0 && r.channel == 0 && r.ssid == stale
    ensures (r.rssi + rssi) % 256 == 0
    ensures |stale| == SsidBufLen ==> WellFormed(r)
  {
    BeaconInfo(Zeros(MacLen), stale, 0, 0, ToByte(-rssi), false)
  }

  /** `parse_beacon(frame, |frame|, rssi)`, with `stale` the indeterminate initial SSID buffer. */
  function BeaconOf(frame: seq<byte>, rssi: int, stale: seq<byte>): (r: BeaconInfo)
    requires |frame| > ElementsStart && |stale| == SsidBufLen
    ensures WellFormed(r)
    ensures r.beacon == frame[BssidOffset..BssidOffset + MacLen]
    ensures r.rssi == ToByte(-rssi)
    ensures frame[ElementsStart] != TagSsid ==>
      r.err && r.ssidLen == 0 && r.channel == 0 && r.ssid == stale
    ensures |frame| >= MinFullBody ==> Sound(r)
  {
    var init := Fresh(rssi, stale);
    var walked := if frame[ElementsStart] == TagSsid then Walk(frame, ElementsStart, init) else init.(err := true);
    walked.(beacon := Slice(frame, BssidOffset, MacLen))
  }

  /** `parse_beacon` as the source runs it: a loop over `pos`. */
  method ParseBeacon(frame: seq<byte>, rssi: int, stale: seq<byte>) returns (bi: BeaconInfo)
    requires |frame| > ElementsStart && |stale| == SsidBufLen
    ensures bi == BeaconOf(frame, rssi, stale)
  {
    ghost var init := Fresh(rssi, stale);
    bi := Fresh(rssi, stale);
    var pos: int := ElementsStart;
    if frame[pos] == TagSsid {
      while pos < |frame|
        invariant ElementsStart <= pos
        invariant Walk(frame, pos, bi) == Walk(frame, ElementsStart, init)
        decreases |frame| - pos
      {
        if !Fits(frame, pos) {
          break;
        }
        var tag := frame[pos];
        if tag == TagSsid {
          bi := bi.(ssidLen := frame[pos + 1]);
          if bi.ssidLen == 0 {
            bi := bi.(ssid := Zeros(SsidBufLen));
          } else if bi.ssidLen > MaxSsidLen {
            bi := bi.(err := true);
          } else {
            bi := bi.(ssid := Slice(frame, pos + 2, bi.ssidLen) + Zeros(SsidBufLen - bi.ssidLen), err := false);
          }
        } else if tag == TagChannel {
          bi := bi.(channel := frame[pos + 2]);
          pos := -1;
        }
        if pos < 0 {
          break;
        }
        pos := pos + frame[pos + 1] + 2;
      }
    } else {
      bi := bi.(err := true);
    }
    bi := bi.(beacon := Slice(frame, BssidOffset, MacLen));
  }

  /** The start offsets of the elements the walk from `pos` processes, in order. */
  function Visited(frame: seq<byte>, pos: nat): (offs: seq<nat>)
    decreases |frame| - pos
    ensures forall k :: 0 <= k < |offs| ==> pos <= offs[k] && Fits(frame, offs[k])
  {
    if pos < |frame| && Fits(frame, pos) then
      [pos] + if frame[pos] == TagChannel then [] else Visited(frame, NextElement(frame, pos))
    else
      []
  }

  /**
    The walk's path: it starts at `pos`, each next element starts right after
    the previous one's value, and a channel element can only be the last one
    visited.
  */
  lemma {:induction false} VisitedChain(frame: seq<byte>, pos: nat)
    ensures var offs := Visited(frame, pos);
      (|offs| > 0 ==> offs[0] == pos) &&
      (forall k :: 0 <= k < |offs| - 1 ==>
         frame[offs[k]] != TagChannel && offs[k + 1] == NextElement(frame, offs[k]))
    decreases |frame| - pos
  {
    if pos < |frame| && Fits(frame, pos) && frame[pos] != TagChannel {
      VisitedChain(frame, NextElement(frame, pos));
    }
  }

  /** The channel is the first value byte of the first channel element the walk meets, if any. */
  lemma {:induction false} WalkChannel(frame: seq<byte>, pos: nat, bi: BeaconInfo)
    ensures var offs := Visited(frame, pos);
      Walk(frame, pos, bi).channel ==
        if |offs| > 0 && frame[offs[|offs| - 1]] == TagChannel then frame[offs[|offs| - 1] + 2] else bi.channel
    decreases |frame| - pos
  {
    if pos < |frame| && Fits(frame, pos) && frame[pos] != TagChannel {
      var next := NextElement(frame, pos);
      WalkChannel(frame, next, Apply(frame, pos, bi));
      var rest := Visited(frame, next);
      assert Visited(frame, pos) == [pos] + rest;
      if |rest| > 0 {
        assert Visited(frame, pos)[|Visited(frame, pos)| - 1] == rest[|rest| - 1];
      }
    }
  }

  /** A walk over elements none of which is an SSID element leaves the SSID, its length and the flag alone. */
  lemma {:induction false} WalkWithoutSsid(frame: seq<byte>, pos: nat, bi: BeaconInfo)
    requires forall k :: 0 <= k < |Visited(frame, pos)| ==> frame[Visited(frame, pos)[k]] != TagSsid
    ensures var r := Walk(frame, pos, bi);
      r.ssid == bi.ssid && r.ssidLen == bi.ssidLen && r.err == bi.err
    decreases |frame| - pos
  {
    if pos < |frame| && Fits(frame, pos) && frame[pos] != TagChannel {
      var next := NextElement(frame, pos);
      var rest := Visited(frame, next);
      assert Visited(frame, pos) == [pos] + rest;
      assert frame[Visited(frame, pos)[0]] != TagSsid;
      forall k | 0 <= k < |rest| ensures frame[rest[k]] != TagSsid {
        assert rest[k] == Visited(frame, pos)[k + 1];
      }
      WalkWithoutSsid(frame, next, Apply(frame, pos, bi));
    }
  }

  /**
    A body whose only SSID element is the one at the start of the element list:
    a length of 1..32 yields exactly those bytes, zero-padded, and clears the
    flag; a length of 0 yields an all-zero SSID and no flag; a length above 32
    flags the record, leaves the buffer untouched and still records the length.
  */
  lemma FirstSsid(frame: seq<byte>, rssi: int, stale: seq<byte>)
    requires |frame| >= MinFullBody && |stale| == SsidBufLen
    requires frame[ElementsStart] == TagSsid
    requires var after := NextElement(frame, ElementsStart);
      forall k :: 0 <= k < |Visited(frame, after)| ==> frame[Visited(frame, after)[k]] != TagSsid
    ensures var r, len := BeaconOf(frame, rssi, stale), frame[ElementsStart + 1];
      r.ssidLen == len &&
      (1 <= len <= MaxSsidLen ==>
        !r.err && r.ssid[..len] == frame[ElementsStart + 2..ElementsStart + 2 + len] &&
        forall i :: len <= i < SsidBufLen ==> r.ssid[i] == 0) &&
      (len == 0 ==> !r.err && r.ssid == Zeros(SsidBufLen)) &&
      (len > MaxSsidLen ==> r.err && r.ssid == stale)
  {
    var init := Fresh(rssi, stale);
    assert Fits(frame, ElementsStart);
    WalkWithoutSsid(frame, NextElement(frame, ElementsStart), Apply(frame, ElementsStart, init));
  }

  /** Two records that agree except on an SSID buffer that is either equal or belongs to a flagged record. */
  predicate SameUpToStale(a: BeaconInfo, b: BeaconInfo) {
    a.(ssid := b.ssid) == b && (a.ssid == b.ssid || a.err)
  }

  lemma {:induction false} WalkUpToStale(frame: seq<byte>, pos: nat, a: BeaconInfo, b: BeaconInfo)
    requires SameUpToStale(a, b)
    ensures SameUpToStale(Walk(frame, pos, a), Walk(frame, pos, b))
    decreases |frame| - pos
  {
    if pos < |frame| && Fits(frame, pos) && frame[pos] != TagChannel {
      WalkUpToStale(frame, NextElement(frame, pos), Apply(frame, pos, a), Apply(frame, pos, b));
    }
  }

  /**
    For a body with room for a full first SSID element (all bodies the
    dispatcher passes), a record that is not flagged does not depend on the
    indeterminate initial SSID buffer; a flagged one differs only in that buffer.
  */
  lemma BeaconIgnoresStale(frame: seq<byte>, rssi: int, s1: seq<byte>, s2: seq<byte>)
    requires |frame| >= MinFullBody && |s1| == SsidBufLen && |s2| == SsidBufLen
    ensures var r1, r2 := BeaconOf(frame, rssi, s1), BeaconOf(frame, rssi, s2);
      r1.(ssid := r2.ssid) == r2 && (!r1.err ==> r1 == r2)
  {
    var a, b := Fresh(rssi, s1), Fresh(rssi, s2);
    if frame[ElementsStart] == TagSsid {
      assert Fits(frame, ElementsStart);
      WalkUpToStale(frame, NextElement(frame, ElementsStart), Apply(frame, ElementsStart, a), Apply(frame, ElementsStart, b));
    }
  }

  /** An SSID element "Test" followed by a DSSS element for channel 6. */
  lemma TestBeacon(rssi: int, stale: seq<byte>)
    requires |stale| == SsidBufLen
    ensures var frame := Zeros(ElementsStart) + [0x00, 0x04, 0x54, 0x65, 0x73, 0x74, 0x03, 0x01, 0x06] + Zeros(67);
      var r := BeaconOf(frame, rssi, stale);
      !r.err && r.ssidLen == 4 && r.ssid == [0x54, 0x65, 0x73, 0x74] + Zeros(29) && r.channel == 6
  {
    var frame := Zeros(ElementsStart) + [0x00, 0x04, 0x54, 0x65, 0x73, 0x74, 0x03, 0x01, 0x06] + Zeros(67);
    var init := Fresh(rssi, stale);
    assert frame[36..46] == [0x00, 0x04, 0x54, 0x65, 0x73, 0x74, 0x03, 0x01, 0x06, 0];
    assert Fits(frame, 36);
    var after := Apply(frame, 36, init);
    assert frame[38..42] == [0x54, 0x65, 0x73, 0x74];
    assert after.ssid == [0x54, 0x65, 0x73, 0x74] + Zeros(29);
    assert NextElement(frame, 36) == 42;
    assert Fits(frame, 42);
    assert Walk(frame, 42, after) == after.(channel := 6);
  }
}
