/**
 * The ARP cache of arpcache.go: a fixed 256 x 256 table of entries, each a
 * 48-bit hardware address with an expiry time in seconds, indexed by the last
 * two octets of an IP address, and judged live or expired against a coarse
 * clock value (`epoch`) that the cache keeps in a field.
 */
module Cache {

  /** An octet, Go's `byte`. */
  type Byte = b: int | 0 <= b < 256

  /** A 48-bit hardware address, Go's `[6]byte`. */
  type Mac = s: seq<Byte> | |s| == 6 witness [0, 0, 0, 0, 0, 0]

  const RowSize := 256
  const NumRows := 256
  const TickerDivisor := 10

  const ZeroMac: Mac := [0, 0, 0, 0, 0, 0]

  /** One cell of the table: `arpEntry{expires, hw}`. */
  datatype Entry = Entry(expires: int, hw: Mac)

  /** The zero value of `arpEntry`, which every cell holds after `New`. */
  const ZeroEntry := Entry(0, ZeroMac)

  /**
   * The 12 octets that Go's net package puts before an IPv4 address in its
   * 16-byte form (::ffff:a.b.c.d).
   */
  const V4InV6Prefix: seq<Byte> := [0, 0, 0, 0, 0, 0, 0, 0, 0, 0, 0xff, 0xff]

  // ---------------------------------------------------------------------
  // Address indexing
  // ---------------------------------------------------------------------

  /**
   * The cell of an IP address: the row is its last octet and the offset
   * into the row its second-to-last octet; an address shorter than two
   * octets falls back to cell (0, 0).
   */
  function IpToInd(ip: seq<Byte>): (slot: (int, int))
    ensures 0 <= slot.0 < NumRows && 0 <= slot.1 < RowSize
    ensures |ip| < 2 ==> slot == (0, 0)
    ensures |ip| >= 2 ==> slot.0 == ip[|ip| - 1] && slot.1 == ip[|ip| - 2]
  {
    if |ip| < 2 then (0, 0) else (ip[|ip| - 1], ip[|ip| - 2])
  }

  /** Two addresses of two or more octets share a cell exactly when their last two octets agree. */
  lemma SameCellIff(a: seq<Byte>, b: seq<Byte>)
    requires |a| >= 2 && |b| >= 2
    ensures IpToInd(a) == IpToInd(b) <==> a[|a| - 2..] == b[|b| - 2..]
  {
    var ta, tb := a[|a| - 2..], b[|b| - 2..];
    assert ta == [a[|a| - 2], a[|a| - 1]];
    assert tb == [b[|b| - 2], b[|b| - 1]];
  }

  /** Whatever precedes the last two octets is irrelevant to the cell. */
  lemma PrefixKeepsCell(prefix: seq<Byte>, ip: seq<Byte>)
    requires |ip| >= 2
    ensures IpToInd(prefix + ip) == IpToInd(ip)
  {
    var whole := prefix + ip;
    assert whole[|whole| - 1] == ip[|ip| - 1];
    assert whole[|whole| - 2] == ip[|ip| - 2];
  }

  /** The 4-byte and the 16-byte form of one IPv4 address land in the same cell. */
  lemma V4InV6SameCell(ip4: seq<Byte>)
    requires |ip4| == 4
    ensures |V4InV6Prefix + ip4| == 16
    ensures IpToInd(V4InV6Prefix + ip4) == IpToInd(ip4)
  {
    PrefixKeepsCell(V4InV6Prefix, ip4);
  }

  /**
   * Overwriting the first octet of an address never moves it to another cell,
   * unless the address has exactly two octets (then the first is the offset).
   */
  lemma FirstByteKeepsCell(ip: seq<Byte>, v: Byte)
    requires |ip| >= 1 && |ip| != 2
    ensures IpToInd(ip[0 := v]) == IpToInd(ip)
  {
  }

  // ---------------------------------------------------------------------
  // Hardware-address normalisation
  // ---------------------------------------------------------------------

  /**
   * The 6-byte array stored for a hardware address: its last six octets, or
   * all zeros when it is shorter than six octets.
   */
  function HwToBytes(hw: seq<Byte>): (hb: Mac)
    ensures |hw| >= 6 ==> hb == hw[|hw| - 6..]
    ensures |hw| < 6 ==> hb == ZeroMac
  {
    if |hw| >= 6 then hw[|hw| - 6..] else ZeroMac
  }

  /** A 6-byte address is stored as it is. */
  lemma HwToBytesKeepsMac(m: Mac)
    ensures HwToBytes(m) == m
  {
  }

  /** Normalising twice is normalising once. */
  lemma HwToBytesIdempotent(hw: seq<Byte>)
    ensures HwToBytes(HwToBytes(hw)) == HwToBytes(hw)
  {
    HwToBytesKeepsMac(HwToBytes(hw));
  }

  // ---------------------------------------------------------------------
  // Ticker period
  // ---------------------------------------------------------------------

  /**
   * The ticker period in whole seconds that `New` computes: Go's int64
   * division `timeoutSeconds / tickerDivisor`, which truncates toward zero.
   */
  function TickerPeriod(timeoutSeconds: int): (n: int)
    ensures 0 <= timeoutSeconds ==> 0 <= timeoutSeconds - TickerDivisor * n < TickerDivisor
    ensures timeoutSeconds < 0 ==> -TickerDivisor < timeoutSeconds - TickerDivisor * n <= 0
  {
    if timeoutSeconds >= 0 then timeoutSeconds / TickerDivisor
    else -((-timeoutSeconds) / TickerDivisor)
  }

  /** The period is positive exactly when the timeout is at least ten seconds. */
  lemma TickerPeriodPositiveIff(timeoutSeconds: int)
    ensures TickerPeriod(timeoutSeconds) > 0 <==> timeoutSeconds >= TickerDivisor
  {
  }

  /** Truncation is symmetric in the sign of the timeout (unlike Euclidean division). */
  lemma TickerPeriodOdd(timeoutSeconds: int)
    ensures TickerPeriod(-timeoutSeconds) == -TickerPeriod(timeoutSeconds)
  {
  }

  // ---------------------------------------------------------------------
  // The cache
  // ---------------------------------------------------------------------

  class ArpCache {
    /** `cache[i].row[j]` of the source, as one two-dimensional array. */
    var cache: array2<Entry>
    /** Timeout in seconds that `Set` adds to the epoch. */
    var defaultTimeout: int
    /** The coarse current time in seconds, refreshed by the ticker. */
    var epoch: int

    ghost predicate Valid()
      reads this
    {
      cache.Length0 == NumRows && cache.Length1 == RowSize
    }

    /** The cell that the source reads and writes for `ip`. */
    function Cell(ip: seq<Byte>): Entry
      reads this, cache
      requires Valid()
    {
      var slot := IpToInd(ip);
      cache[slot.0, slot.1]
    }

    /**
     * `New(timeoutSeconds)`, with the start time `now` (time.Now().Unix() in
     * the source) as a parameter: every cell is the zero entry.
     */
    constructor New(timeoutSeconds: int, now: int)
      ensures Valid() && fresh(cache)
      ensures defaultTimeout == timeoutSeconds && epoch == now
      ensures forall i, j :: 0 <= i < NumRows && 0 <= j < RowSize ==> cache[i, j] == ZeroEntry
    {
      cache := new Entry[NumRows, RowSize]((i, j) => ZeroEntry);
      defaultTimeout := timeoutSeconds;
      epoch := now;
    }

    /** One tick of the background ticker: the epoch becomes the time read. */
    method Tick(now: int)
      requires Valid()
      modifies this`epoch
      ensures Valid() && epoch == now
      ensures cache == old(cache) && defaultTimeout == old(defaultTimeout) && unchanged(cache)
    {
      epoch := now;
    }

    method SetDefaultTimeout(timeoutSeconds: int)
      requires Valid()
      modifies this`defaultTimeout
      ensures Valid() && defaultTimeout == timeoutSeconds
      ensures cache == old(cache) && epoch == old(epoch) && unchanged(cache)
    {
      defaultTimeout := timeoutSeconds;
    }

    /**
     * The stored address of `ip`'s cell and true, unless the cell's expiry
     * time is before the epoch; then an empty address and false.
     */
    method Get(ip: seq<Byte>) returns (hw: seq<Byte>, found: bool)
      requires Valid()
      ensures found <==> epoch <= Cell(ip).expires
      ensures found ==> hw == Cell(ip).hw
      ensures !found ==> hw == []
    {
      var (i, j) := IpToInd(ip);
      var entry := cache[i, j];
      if entry.expires < epoch {
        hw, found := [], false;
        return;
      }
      hw, found := entry.hw, true;
    }

    /**
     * `Set` as the source writes it: the new address and expiry are computed
     * into a local copy of the cell, which is then dropped; the table, the
     * epoch and the timeout are left as they were.
     */
    method Set(ip: seq<Byte>, hw: seq<Byte>)
      requires Valid()
      ensures Valid()
      ensures unchanged(this) && unchanged(cache)
    {
      var (i, j) := IpToInd(ip);
      var entry := cache[i, j];
      entry := entry.(hw := HwToBytes(hw));
      entry := entry.(expires := epoch + defaultTimeout);
    }

    /**
     * `SetExpiry` as the source writes it: the expiry is changed in a local
     * copy of the cell only; the result is always true.
     */
    method SetExpiry(ip: seq<Byte>, epochSeconds: int) returns (ok: bool)
      requires Valid()
      ensures Valid() && ok
      ensures unchanged(this) && unchanged(cache)
    {
      var (i, j) := IpToInd(ip);
      var entry := cache[i, j];
      entry := entry.(expires := epochSeconds);
      ok := true;
    }

    /** `Delete` is `SetExpiry(ip, 0)`, and so changes nothing either. */
    method Delete(ip: seq<Byte>) returns (ok: bool)
      requires Valid()
      ensures Valid() && ok
      ensures unchanged(this) && unchanged(cache)
    {
      ok := SetExpiry(ip, 0);
    }

    // -------------------------------------------------------------------
    // Store-back variants: NOT the behaviour of the source. They write the
    // updated copy back into the table, as the doc comments of Set,
    // SetExpiry and Delete describe.
    // -------------------------------------------------------------------

    /** Store-back `Set`: `ip`'s cell becomes the new address with expiry epoch + timeout. */
    method SetStored(ip: seq<Byte>, hw: seq<Byte>)
      requires Valid()
      modifies cache
      ensures Valid()
      ensures Cell(ip) == Entry(epoch + defaultTimeout, HwToBytes(hw))
      ensures forall i, j :: 0 <= i < NumRows && 0 <= j < RowSize && (i, j) != IpToInd(ip) ==>
                cache[i, j] == old(cache[i, j])
    {
      var (i, j) := IpToInd(ip);
      var entry := cache[i, j];
      entry := entry.(hw := HwToBytes(hw));
      entry := entry.(expires := epoch + defaultTimeout);
      cache[i, j] := entry;
    }

    /** Store-back `SetExpiry`: only the expiry of `ip`'s cell changes. */
    method SetExpiryStored(ip: seq<Byte>, epochSeconds: int) returns (ok: bool)
      requires Valid()
      modifies cache
      ensures Valid() && ok
      ensures Cell(ip) == Entry(epochSeconds, old(Cell(ip)).hw)
      ensures forall i, j :: 0 <= i < NumRows && 0 <= j < RowSize && (i, j) != IpToInd(ip) ==>
                cache[i, j] == old(cache[i, j])
    {
      var (i, j) := IpToInd(ip);
      var entry := cache[i, j];
      entry := entry.(expires := epochSeconds);
      cache[i, j] := entry;
      ok := true;
    }

    /** Store-back `Delete`: `ip`'s cell keeps its address and expires at time 0. */
    method DeleteStored(ip: seq<Byte>) returns (ok: bool)
      requires Valid()
      modifies cache
      ensures Valid() && ok
      ensures Cell(ip) == Entry(0, old(Cell(ip)).hw)
      ensures forall i, j :: 0 <= i < NumRows && 0 <= j < RowSize && (i, j) != IpToInd(ip) ==>
                cache[i, j] == old(cache[i, j])
    {
      ok := SetExpiryStored(ip, 0);
    }
  }
}
