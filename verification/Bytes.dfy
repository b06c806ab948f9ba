/** Bytes, big-endian lengths, and the fixed-width integer casts the program relies on. */
module Bytes {

  type byte = b: int | 0 <= b < 256
  type bytes = seq<byte>

  datatype Option<+T> = None | Some(value: T) {
    function GetOr(default: T): T {
      if None? then default else value
    }
  }

  const TWO_TO_THE_31: int := 0x8000_0000
  const TWO_TO_THE_32: int := 0x1_0000_0000

  /** The four bytes of `htonl(n)` in memory order. */
  function Be32(n: nat): bytes
    requires n < TWO_TO_THE_32
  {
    [n / 0x100_0000, n / 0x1_0000 % 256, n / 0x100 % 256, n % 256]
  }

  function FromBe32(b: bytes): nat
    requires |b| >= 4
  {
    b[0] as int * 0x100_0000 + b[1] as int * 0x1_0000 + b[2] as int * 0x100 + b[3] as int
  }

  lemma Be32RoundTrip(n: nat)
    requires n < TWO_TO_THE_32
    ensures FromBe32(Be32(n)) == n
  {
    assert n / 0x1_0000 == n / 0x100_0000 * 256 + n / 0x1_0000 % 256;
    assert n / 0x100 == n / 0x1_0000 * 256 + n / 0x100 % 256;
    assert n == n / 0x100 * 256 + n % 256;
  }

  /** `static_cast<uint32_t>`. */
  function Truncate32(n: nat): nat {
    n % TWO_TO_THE_32
  }

  /** `static_cast<int32_t>` of a 64-bit counter: two's complement wrap-around. */
  function Wrap32(n: int): int {
    (n + TWO_TO_THE_31) % TWO_TO_THE_32 - TWO_TO_THE_31
  }

  /** A wrapped counter is the counter itself, or it is too small by at least 2^32. */
  lemma Wrap32FallsShort(n: nat)
    ensures Wrap32(n) == n || Wrap32(n) <= n - TWO_TO_THE_32
    ensures Wrap32(n) == n <==> n < TWO_TO_THE_31
    ensures -TWO_TO_THE_31 <= Wrap32(n) < TWO_TO_THE_31 && (n - Wrap32(n)) % TWO_TO_THE_32 == 0
  {
    var q := (n + TWO_TO_THE_31) / TWO_TO_THE_32;
    assert Wrap32(n) == n - q * TWO_TO_THE_32;
  }
}
