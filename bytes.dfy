/** Octets, MAC addresses and the C integer conversions the sniffer relies on. */
module Bytes {

  /** An unsigned 8-bit value (`uint8_t`). */
  type byte = x: int | 0 <= x < 256

  /** Length of a MAC address (`ETH_MAC_LEN`). */
  const MacLen: nat := 6

  /** The value a C assignment of `x` to a `uint8_t` stores: reduction modulo 2^8. */
  function ToByte(x: int): (r: byte)
    ensures (r - x) % 256 == 0
    ensures 0 <= x < 256 ==> r == x
  {
    x % 256
  }

  /** The value a C assignment of `x` to a `uint16_t` stores: reduction modulo 2^16. */
  function ToU16(x: int): (r: int)
    ensures 0 <= r < 0x1_0000
    ensures (r - x) % 0x1_0000 == 0
    ensures 0 <= x < 0x1_0000 ==> r == x
  {
    x % 0x1_0000
  }

  /** `b & 0xF0`: the octet with its low four bits cleared. */
  function HighNibble(b: byte): (r: byte)
    ensures r % 16 == 0 && b - 16 < r <= b
  {
    b / 16 * 16
  }

  /** `b & 3`: the two least significant bits of an octet. */
  function LowBits2(b: byte): (r: byte)
    ensures r < 4 && (b - r) % 4 == 0
  {
    b % 4
  }

  /** `n` zero octets, what `memset(p, 0, n)` leaves behind. */
  function Zeros(n: nat): (r: seq<byte>)
    ensures |r| == n
    ensures forall i :: 0 <= i < n ==> r[i] == 0
  {
    seq(n, _ => 0)
  }

  /** `s[from..from+n)`, the `n` bytes a `memcpy` from `s + from` reads. */
  function Slice(s: seq<byte>, from: nat, n: nat): (r: seq<byte>)
    requires from + n <= |s|
    ensures |r| == n
    ensures forall i :: 0 <= i < n ==> r[i] == s[from + i]
  {
    s[from..from + n]
  }

  /** `s` with the `|v|` bytes at offset `at` replaced by `v` (a `memcpy` into `s + at`). */
  function Patch(s: seq<byte>, at: nat, v: seq<byte>): (r: seq<byte>)
    requires at + |v| <= |s|
    ensures |r| == |s|
    ensures r[at..at + |v|] == v
    ensures forall i :: 0 <= i < |s| && !(at <= i < at + |v|) ==> r[i] == s[i]
  {
    s[..at] + v + s[at + |v|..]
  }

  /** Patching inside a prefix commutes with taking the prefix. */
  lemma PatchPrefix(s: seq<byte>, at: nat, v: seq<byte>, n: nat)
    requires at + |v| <= n <= |s|
    ensures Patch(s, at, v)[..n] == Patch(s[..n], at, v)
  {
    assert Patch(s, at, v)[..n] == s[..at] + v + s[at + |v|..n];
  }

  /** `memcpy(dst + at, src, |src|)` on a byte buffer. */
  method MemCpy(dst: array<byte>, at: nat, src: seq<byte>)
    requires at + |src| <= dst.Length
    modifies dst
    ensures dst[..] == Patch(old(dst[..]), at, src)
  {
    for j := 0 to |src|
      invariant forall i :: 0 <= i < dst.Length && !(at <= i < at + j) ==> dst[i] == old(dst[i])
      invariant forall i :: 0 <= i < j ==> dst[at + i] == src[i]
    {
      dst[at + j] := src[j];
    }
  }
}
