/**
 * The IPv4 codec of arpcache_test.go: `uint2ip` writes a 32-bit number as
 * four octets, most significant first, and `ip2uint` reads them back.
 */
module Codec {
  import opened Cache

  /** Go's `uint32`. */
  type Uint32 = n: int | 0 <= n < 0x1_0000_0000

  /** The four octets of `n`, most significant first. */
  function BigEndianBytes(n: Uint32): (ip: seq<Byte>)
    ensures |ip| == 4
  {
    [(n / 0x100_0000) % 0x100, (n / 0x1_0000) % 0x100, (n / 0x100) % 0x100, n % 0x100]
  }

  /**
   * `uint2ip`: fills a fresh 4-byte slice from its last octet to its first,
   * taking the low byte of `n` and shifting `n` right by eight each time.
   */
  method Uint2Ip(n: Uint32) returns (ip: seq<Byte>)
    ensures ip == BigEndianBytes(n)
  {
    var a := new Byte[4];
    var m := n;
    a[3] := m % 0x100;
    m := m / 0x100;
    a[2] := m % 0x100;
    m := m / 0x100;
    a[1] := m % 0x100;
    m := m / 0x100;
    a[0] := m % 0x100;
    ShiftTwice(n);
    ShiftThrice(n);
    ip := a[..];
  }

  /**
   * `ip2uint`: the number whose big-endian octets are the first four of `b`
   * (Go's binary.BigEndian.Uint32, which panics on fewer than four).
   */
  function Ip2Uint(b: seq<Byte>): (n: Uint32)
    requires |b| >= 4
    ensures n / 0x100_0000 == b[0]
    ensures n % 0x100 == b[3]
  {
    (b[0] as int) * 0x100_0000 + (b[1] as int) * 0x1_0000 + (b[2] as int) * 0x100 + b[3]
  }

  /** 256 to the power `k`: the number of values an octet string of length `k` can denote. */
  function Pow256(k: nat): nat
  {
    if k == 0 then 1 else 0x100 * Pow256(k - 1)
  }

  /**
   * The big-endian value of an octet string of any length, each octet worth
   * 256 times the one after it: the reference for `Ip2Uint`.
   */
  function BigEndianValue(s: seq<Byte>): (v: nat)
    ensures v < Pow256(|s|)
  {
    if s == [] then 0 else BigEndianValue(s[..|s| - 1]) * 0x100 + s[|s| - 1]
  }

  /** `ip2uint` is the big-endian value of the first four octets. */
  lemma Ip2UintIsBigEndianValue(b: seq<Byte>)
    requires |b| >= 4
    ensures Ip2Uint(b) == BigEndianValue(b[..4])
  {
    var s := b[..4];
    assert s[..3] == b[..3] && s[..3][..2] == b[..2] && s[..3][..2][..1] == b[..1];
    assert b[..1][..0] == [];
    assert BigEndianValue(b[..1]) == b[0];
    assert BigEndianValue(b[..2]) == (b[0] as int) * 0x100 + b[1];
    assert BigEndianValue(b[..3]) == ((b[0] as int) * 0x100 + b[1]) * 0x100 + b[2];
  }

  /** Any four-octet big-endian read fits in a uint32, by the bound on `BigEndianValue`. */
  lemma FourOctetsFitUint32(b: seq<Byte>)
    requires |b| == 4
    ensures BigEndianValue(b) < 0x1_0000_0000
  {
    assert Pow256(4) == 0x1_0000_0000;
  }

  /** Splitting off the low octet of a number is undone by putting it back. */
  lemma Digit(q: int, d: int)
    requires 0 <= q && 0 <= d < 0x100
    ensures (q * 0x100 + d) / 0x100 == q && (q * 0x100 + d) % 0x100 == d
  {
  }

  lemma ShiftTwice(n: Uint32)
    ensures n / 0x100 / 0x100 == n / 0x1_0000
  {
  }

  lemma ShiftThrice(n: Uint32)
    ensures n / 0x100 / 0x100 / 0x100 == n / 0x100_0000
  {
  }

  /** Reading back what `uint2ip` wrote gives the number again. */
  lemma DecodeEncode(n: Uint32)
    ensures Ip2Uint(BigEndianBytes(n)) == n
  {
  }

  /** Writing out what `ip2uint` read gives its four octets again. */
  lemma EncodeDecode(b: seq<Byte>)
    requires |b| >= 4
    ensures BigEndianBytes(Ip2Uint(b)) == b[..4]
  {
    var n := Ip2Uint(b);
    var hi := (b[0] as int) * 0x100 + b[1];
    var top := hi * 0x100 + b[2];
    assert n == top * 0x100 + b[3];
    Digit(top, b[3]);
    Digit(hi, b[2]);
    Digit(b[0], b[1]);
    ShiftTwice(n);
    ShiftThrice(n);
  }

  /** The cell of an encoded address: its row is the low byte, its offset the next one. */
  lemma CellOfEncoded(n: Uint32)
    ensures IpToInd(BigEndianBytes(n)) == (n % 0x100, (n / 0x100) % 0x100)
  {
  }

  /** Two encoded addresses share a cell exactly when the numbers agree modulo 2^16. */
  lemma EncodedSameCellIff(n: Uint32, m: Uint32)
    ensures IpToInd(BigEndianBytes(n)) == IpToInd(BigEndianBytes(m)) <==> n % 0x1_0000 == m % 0x1_0000
  {
    CellOfEncoded(n);
    CellOfEncoded(m);
    LowHalf(n);
    LowHalf(m);
    Digit((n / 0x100) % 0x100, n % 0x100);
    Digit((m / 0x100) % 0x100, m % 0x100);
  }

  /** The low sixteen bits of `n` are its two low octets. */
  lemma LowHalf(n: Uint32)
    ensures n % 0x1_0000 == ((n / 0x100) % 0x100) * 0x100 + n % 0x100
  {
    ShiftTwice(n);
  }
}
