# ESP8266 802.11 sniffer: a Dafny model of its frame pipeline

This project models the core of the ESP8266 monitor-mode sniffer in
`esp8266-sniffer/src/main.cpp`. The core has five parts:

- **Beacon parser** (`parse_beacon`). It walks the tag-length-value information
  elements of a 112-byte beacon body, starting at offset 36. It reads the SSID
  element (section 9.4.2.2 of IEEE 802.11-2016) and the DSSS Parameter Set
  element (section 9.4.2.4). It copies the BSSID from offset 10.
- **Data-frame parser** (`parse_client`). It chooses the access point and station
  addresses from the To DS / From DS bits (section 9.2.4.1). It computes the
  source's own sequence value, `frame[23]*255 + (frame[22] & 0xF0)`.
- **Two inventories** (`store_beacon`, `store_client`). Each has 256 slots, a
  `count` and a circular write `index`. A known key is updated in place. A new
  key overwrites the slot at `index`.
- **Dispatcher and scheduler.** The capture callback `parse_packet` routes each
  record by its length and frame-control byte. The `nothing_new` counter drives
  the channel-hop branch of `loop` over channels 1..14.
- **Forged frames.** `deauth_client` sends a burst of 16 deauthentication frames
  (section 9.3.3.12). `fake_beacon` patches the 128-byte beacon template and
  sends its first 57 bytes.

Modules, one file each:

- `Bytes`: octets, C truncation to `uint8_t`/`uint16_t`, `memcpy` as a value and as a method.
- `BeaconParser`, `ClientParser`, `Inventory`, `Scheduler`: the parts above.
- `Forge`: the forged frames as values.
- `Sniffer`: a class with the program's globals (the two inventories,
  `beacon_packet`, `channel`, `nothing_new`). Its methods are `parse_packet`,
  the hop branch of `loop`, and the two senders. `wifi_send_pkt_freedom` becomes
  a ghost log of the bytes sent. `wifi_set_channel` becomes a ghost log of the
  channels asked for. Random bytes and signal strength are parameters.

The parsers are pure functions. `parse_beacon` is also written as a method with
the source's `while` loop, proved equal to the function. The inventories are a
class over an `array`, specified by a pure `Upsert` on an abstract table. The
forged frames are built in place in arrays and specified by functions.

Quirks of the code the model keeps:

- An SSID element longer than 32 bytes leaves the SSID buffer untouched but still
  sets `ssid_len` to its length.
- An SSID element of length 0 clears the buffer but does not touch the error
  flag. An SSID element of length 1..32 clears the flag, so after the walk `err`
  is set exactly when an SSID element longer than 32 was walked since the last
  SSID element of length 1..32.
- The test of `nothing_new` comes before its increment in each tick, so from
  `nothing_new == 0` ten idle ticks only count and the hop happens on the
  11th (`Scheduler.HopAfterIdle`).
- `seq / 255` in the deauthentication burst can reach 257. It is stored
  truncated to a byte.
- The three-prefix broadcast test of the from-DS case is always true, so the
  station is always read from offset 16. It is modelled as written and proved
  always true (`ClientParser.NotBroadcastAlways`).
- A body holding an SSID element "Test" followed by zero padding ends with an
  empty SSID, because the padding reads as SSID elements of length 0, each of
  which clears the buffer. `BeaconParser.TestBeacon` places a channel element
  right after the SSID, where the walk stops with SSID "Test".

Bounds of the element walk. The source reads the element header, the channel
byte and the SSID bytes without checking `framelen`. The model adds a guard,
not a precondition: `BeaconParser.Fits`. The walk stops before the first
element whose bytes would lie past the end of the body, and the record keeps
what it had. In the source those reads go beyond the 112-byte buffer.

## Model

| member | source | states |
|---|---|---|
| BeaconParser.NextElement | esp8266-sniffer/src/main.cpp:183 | the next element starts past the two header bytes and the value, so every step of the walk advances by at least 2 |
| BeaconParser.Fresh | esp8266-sniffer/src/main.cpp:141-145 | the record before the walk: no error, `ssid_len` 0, channel 0, SSID buffer as the stack left it, RSSI congruent to `-rssi` modulo 256, well-formed buffer sizes |
| BeaconParser.Apply | esp8266-sniffer/src/main.cpp:151-180 | one element: an SSID of 0 bytes zeroes the buffer and keeps `err`; 1..32 copies exactly those bytes, zero-pads and clears `err`; >32 sets `err`, copies nothing, records the length; tag 3 sets the channel to the first value byte; other tags change nothing; BSSID and RSSI untouched |
| BeaconParser.Walk | esp8266-sniffer/src/main.cpp:149-184 | the walk never changes BSSID or RSSI, keeps the buffer sizes, and keeps "flagged or SSID-consistent" |
| BeaconParser.BeaconOf | esp8266-sniffer/src/main.cpp:139-192 | BSSID is always `frame[10..16)`; RSSI is `-rssi` reduced to a byte; if `frame[36] != 0` then `err`, `ssid_len == 0`, `channel == 0` and the buffer is untouched; on bodies with room for a full SSID element the record is flagged or has `ssid_len <= 32` with a zero tail |
| BeaconParser.ParseBeacon | esp8266-sniffer/src/main.cpp:139-192 | the source's `while` loop over `pos` computes exactly `BeaconOf` |
| BeaconParser.Visited | esp8266-sniffer/src/main.cpp:149-184 | every element the walk processes lies inside the body and at or after the start |
| BeaconParser.VisitedChain | esp8266-sniffer/src/main.cpp:149-184 | the walk starts at `pos`, each element starts `length + 2` after the previous one, and only the last one can be a channel element |
| BeaconParser.WalkChannel | esp8266-sniffer/src/main.cpp:174-182 | the channel is the first value byte of the first channel element met, where the walk stops; unchanged if there is none |
| BeaconParser.WalkWithoutSsid | esp8266-sniffer/src/main.cpp:151-183 | a walk over no SSID element leaves SSID, length and flag alone |
| BeaconParser.FirstSsid | esp8266-sniffer/src/main.cpp:146-173 | with the first element the only SSID element, a length of 1..32 yields those bytes zero-padded and no error, 0 an all-zero buffer and no error, >32 an error with the buffer untouched and the length recorded |
| BeaconParser.WalkUpToStale | esp8266-sniffer/src/main.cpp:141-173 | two walks whose records differ only in an SSID buffer that is flagged stay that way |
| BeaconParser.BeaconIgnoresStale | esp8266-sniffer/src/main.cpp:141-173 | a record that is not flagged does not depend on the uninitialised SSID buffer |
| BeaconParser.TestBeacon | esp8266-sniffer/src/main.cpp:146-177 | the body `00 04 "Test" 03 01 06` at offset 36 gives SSID "Test", length 4, channel 6, no error |
| ClientParser.DirectionOf | esp8266-sniffer/src/main.cpp:208-209 | the direction is exactly `frame[1] & 3` |
| ClientParser.NotBroadcast | esp8266-sniffer/src/main.cpp:222 | the OR of three `memcmp` tests is false exactly when the first three destination bytes equal all three prefixes at once |
| ClientParser.NotBroadcastAlways | esp8266-sniffer/src/main.cpp:220-225 | the OR of the three prefix tests is true for every destination address |
| ClientParser.Roles | esp8266-sniffer/src/main.cpp:210-235 | both address offsets lie inside the 24-byte header |
| ClientParser.SeqOf | esp8266-sniffer/src/main.cpp:238 | the `uint16_t` store does not truncate: the value is `frame[23]*255 + (frame[22] & 0xF0)`, at most 65265 |
| ClientParser.ParseClient | esp8266-sniffer/src/main.cpp:200-240 | `err` is always false; both addresses are 6 bytes; RSSI is `-rssi` as a byte; the sequence value is `SeqOf` |
| ClientParser.AddressTable | esp8266-sniffer/src/main.cpp:209-237 | (AP, station) offsets by `ds`: 0 → (16,10), 1 → (4,10), 2 → (10,16) whatever the destination, 3 → (10,4) |
| Inventory.FindFrom | esp8266-sniffer/src/main.cpp:252-259 | the scan returns the first occupied slot with the key, or reports that no occupied slot has it |
| Inventory.Upsert | esp8266-sniffer/src/main.cpp:248-274 | known iff the key occurs in slots `[0,count)`; a known key overwrites only its slot and keeps `count`/`index`; a new key goes into slot `index`, `count` grows up to 256, `index` advances mod 256 |
| Inventory.UpsertPreservesValid | esp8266-sniffer/src/main.cpp:248-305 | `count <= 256`, `index < 256`, `index == count` until saturation, and distinct occupied keys are preserved |
| Inventory.UpsertThenPresent | esp8266-sniffer/src/main.cpp:260-272 | after a store the record sits in exactly one occupied slot with its key |
| Inventory.UpsertIdempotent | esp8266-sniffer/src/main.cpp:252-263 | storing the same record again changes nothing and reports it known |
| Inventory.UpsertEvictsAtIndex | esp8266-sniffer/src/main.cpp:264-272 | when full, a new key evicts exactly the slot at `index`; count stays 256 |
| Inventory.UpsertKeepsAll | esp8266-sniffer/src/main.cpp:260-272 | a property of every stored record survives storing a record that has it |
| Inventory.Inventory.constructor | esp8266-sniffer/src/main.cpp:126-132 | an empty inventory: `count == index == 0`, which satisfies the invariant |
| Inventory.UpsertKnown | esp8266-sniffer/src/main.cpp:252-263 | a scan that finds the key at slot `u` makes the store replace slot `u` and report it known |
| Inventory.UpsertNew | esp8266-sniffer/src/main.cpp:264-272 | a scan that finds nothing makes the store write at `index`, grow `count` below 256 and wrap `index` at 256, reporting it new |
| Inventory.Inventory.Find | esp8266-sniffer/src/main.cpp:252-259 | the scan loop returns exactly the first occupied slot whose key matches, or none |
| Inventory.Inventory.Store | esp8266-sniffer/src/main.cpp:248-274 | the array and counters become exactly `Upsert` of the old state, the result reports whether the key was known, and the invariant holds; `store_client` (279-305) is the same code over the client globals |
| Scheduler.NextChannel | esp8266-sniffer/src/main.cpp:582-584 | the next channel stays in 1..14, wrapping 14 → 1 |
| Scheduler.Tick | esp8266-sniffer/src/main.cpp:579-590 | at `nothing_new >= 10` the channel advances (wrapping) and the counter resets, with a retune; otherwise only the counter grows by exactly 1; channel stays in 1..14 and the counter at most 10 |
| Scheduler.IdleTicksStay | esp8266-sniffer/src/main.cpp:587-590 | up to a count of 10, idle ticks keep the channel and add one each |
| Scheduler.HopAfterIdle | esp8266-sniffer/src/main.cpp:579-590 | from a fresh count, ten idle ticks keep the channel and the eleventh moves to the next channel |
| Forge.BurstSeq | esp8266-sniffer/src/main.cpp:354 | frame `i` carries `(seq + 16*i) mod 65536` |
| Forge.DeauthBase | esp8266-sniffer/src/main.cpp:348-351 | 26 bytes: station at 4-9, AP at 10-15 and 16-21, template elsewhere |
| Forge.DeauthFrame | esp8266-sniffer/src/main.cpp:342-356 | the addresses as above; bytes 0-3 and 24-25 from the template; byte 22 is `s % 255` and byte 23 is `(s / 255) mod 256` |
| Forge.DeauthFrames | esp8266-sniffer/src/main.cpp:352-359 | exactly 16 frames of 26 bytes, frame `i` being `DeauthFrame(ci, i)` |
| Forge.DeauthSeqSplit | esp8266-sniffer/src/main.cpp:355-356 | below 65280, `byte23*255 + byte22` recovers `s`; above, the high byte wraps (257 → 1, 256 → 0) |
| Forge.DeauthSeqReadBack | esp8266-sniffer/src/main.cpp:354-356 | the station parser's formula reads a burst frame back as `s - (s % 255) % 16`: no round trip |
| Forge.Repeat | esp8266-sniffer/src/main.cpp:382-385 | `n` copies of the same frame |
| Forge.StrNCopy | esp8266-sniffer/src/main.cpp:381 | `strncpy` of a C string into 16 bytes: its first bytes, zero-padded |
| Forge.FakeBeaconPacket | esp8266-sniffer/src/main.cpp:375-381 | bytes 10-15 and 16-21 equal the six random bytes; bytes 38-53 hold the copied SSID; every other byte is untouched |
| Forge.FakeBeaconLayout | esp8266-sniffer/src/main.cpp:365-384 | from the template the 57 bytes sent are a beacon with an SSID element of length 16 and a rates element cut after one rate |
| Sniffer.Admit | esp8266-sniffer/src/main.cpp:317-336 | a rejected record changes nothing; an accepted one is upserted; `nothing_new` becomes 0 exactly when it was not 0, the record is accepted and its key is new |
| Sniffer.ClientAccepted | esp8266-sniffer/src/main.cpp:327-332 | a data-frame record is stored only if the frame-control byte is 0x08 or 0x88, its two addresses differ, and it is not flagged |
| Sniffer.ClientAcceptedOnFrame | esp8266-sniffer/src/main.cpp:327-332 | on a parsed 36-byte body the `err` test never rejects: acceptance is exactly "(QoS) data frame whose AP and station address fields differ" |
| Sniffer.AdmitKeepsBeacons | esp8266-sniffer/src/main.cpp:317-323 | a 112-byte body adds only an unflagged, SSID-consistent beacon, with BSSIDs kept distinct |
| Sniffer.AdmitKeepsClients | esp8266-sniffer/src/main.cpp:324-336 | a data body adds only a client whose station differs from its AP, with station addresses kept distinct |
| Sniffer.Sniffer.constructor | esp8266-sniffer/src/main.cpp:126-134 | the globals at start: empty inventories over fresh arrays (so the callback may update them), channel 1, `nothing_new` 0, `beacon_packet` equal to its template, empty logs |
| Sniffer.Sniffer.ParsePacket | esp8266-sniffer/src/main.cpp:310-337 | length 12 changes nothing; length 128 admits `BeaconOf(body)` when not flagged; any other length admits `ParseClient(body)` when `buf[0]` is 0x08 or 0x88 and the addresses differ; channel and logs unchanged |
| Sniffer.Sniffer.AdmitBeacon | esp8266-sniffer/src/main.cpp:320-322 | the beacon inventory and counter become `Admit` of the old ones; the client inventory is unchanged |
| Sniffer.Sniffer.AdmitClient | esp8266-sniffer/src/main.cpp:327-334 | the client inventory and counter become `Admit` of the old ones; the beacon inventory is unchanged |
| Sniffer.Sniffer.LoopTick | esp8266-sniffer/src/main.cpp:579-590 | channel and counter become `Tick` of the old ones; the new channel is logged exactly when it hops |
| Sniffer.Sniffer.FillDeauth | esp8266-sniffer/src/main.cpp:347-351 | the first 26 bytes of `packet_buffer` become `DeauthBase` |
| Sniffer.Sniffer.DeauthClient | esp8266-sniffer/src/main.cpp:345-360 | the transmit log grows by exactly `DeauthFrames(ci)` |
| Sniffer.Sniffer.FakeBeacon | esp8266-sniffer/src/main.cpp:371-387 | if the SSID is empty or `packets == 0`, nothing is sent and `beacon_packet` is unchanged; otherwise `beacon_packet` becomes `FakeBeaconPacket` and `packets` copies of its first 57 bytes are logged |

## Left out

- Espressif SDK calls (`wifi_set_opmode`, `wifi_promiscuous_enable`, `wifi_set_promiscuous_rx_cb`): foreign radio I/O. `wifi_send_pkt_freedom` and `wifi_set_channel` are ghost logs.
- `delay` (1 ms in the burst, 2 s in `loop`): timing is not modelled.
- `random(256)`: the six draws are the parameter `rnd`.
- Reporting (`print_*`, `concat_*`, `send_*`, `sendStringToBus`, the PJON `bus`): Serial/bus transport and `sprintf` formatting over a library that is not part of this model. The rest of `loop`, which calls `send_beacons` and `send_clients`, is left out with them.
- `setup()`: bootstrap only. Its initial `wifi_set_channel(channel)` is not in the retune log.
- The raw-struct overlays `RxControl`, `sniffer_buf1` and `sniffer_buf2`: the body bytes and the signal strength are inputs, and the body lengths (112 and 36) are preconditions of `ParsePacket`.
- Concurrency: the capture callback interleaving with `loop` over the shared globals. Each callback and each loop tick is one atomic step.
- `fake_beacon_ssid`: declared but never used by the core.
- BeaconParser.ParseBeacon: reads past the end of the body are not modelled. The walk stops at the first element that does not fit (`Fits`); the source reads adjacent memory there.
- BeaconParser.BeaconOf: the uninitialised SSID buffer of the local record is the parameter `stale`. The uninitialised BSSID is shown as zeros, which the final `memcpy` always overwrites.
- Sniffer.Sniffer.DeauthClient: bytes 26..63 of the 64-byte `packet_buffer` are never sent and are not modelled.
- Sniffer.Sniffer.ParsePacket: the facts that stored beacons are unflagged and SSID-consistent, and that stored clients have distinct addresses, are proved as lemmas over tables (`AdmitKeepsBeacons`, `AdmitKeepsClients`), not as part of the class invariant.
- Sniffer.Sniffer.FakeBeacon: the SSID is the bytes of a C string before its terminator (no zero byte inside), so `strlen` is its length.
