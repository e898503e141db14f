/** Bytes and big- or little-endian fields, shared by the wire-format modules. */
module Bytes {
  type Byte = b: int | 0 <= b < 256

  /** Sizes a DNS message may have. */
  const MIN_DNS_PACKET_SIZE: nat := 17
  const MAX_DNS_PACKET_SIZE: nat := 4096

  const UINT16: int := 0x1_0000
  const UINT32: int := 0x1_0000_0000

  function BigEndian16(hi: Byte, lo: Byte): (n: nat)
    ensures n < UINT16
  {
    hi * 256 + lo
  }

  function High(n: nat): Byte
    requires n < UINT16
  {
    n / 256
  }

  function Low(n: nat): Byte { n % 256 }

  lemma BigEndian16RoundTrip(n: nat)
    requires n < UINT16
    ensures BigEndian16(High(n), Low(n)) == n
  {
  }

  function BigEndian32(s: seq<Byte>): (n: nat)
    requires |s| == 4
    ensures n < UINT32
  {
    BigEndian16(s[0], s[1]) * UINT16 + BigEndian16(s[2], s[3])
  }

  /** Numbers compare as their bytes do: by the first byte in which they differ. */
  lemma BigEndian32Compares(s: seq<Byte>, t: seq<Byte>)
    requires |s| == 4 && |t| == 4
    ensures BigEndian32(s) < BigEndian32(t) <==>
            || s[0] < t[0]
            || (s[0] == t[0] && s[1] < t[1])
            || (s[..2] == t[..2] && s[2] < t[2])
            || (s[..3] == t[..3] && s[3] < t[3])
    ensures BigEndian32([0, 0, 0, s[3]]) == s[3]
  {
    assert s[..2] == [s[0], s[1]] && t[..2] == [t[0], t[1]];
    assert s[..3] == [s[0], s[1], s[2]] && t[..3] == [t[0], t[1], t[2]];
  }
}
