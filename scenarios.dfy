/**
 * Callers of the cache, written against the contracts of module Cache: what a
 * forwarding path sees from `Get` after the writes that arpcache.go performs,
 * and what it would see after the store-back variants.
 */
module Scenarios {
  import opened Cache

  /** Address 10.0.0.1 and hardware address AA:BB:CC:DD:EE:FF. */
  const Host: seq<Byte> := [10, 0, 0, 1]
  const HostMac: seq<Byte> := [0xAA, 0xBB, 0xCC, 0xDD, 0xEE, 0xFF]

  /** A new cache started at a positive time reports every address as not found. */
  method NewCacheMisses(timeoutSeconds: int, now: int, ip: seq<Byte>) returns (hw: seq<Byte>, found: bool)
    requires 0 < now
    ensures !found && hw == []
  {
    var c := new ArpCache.New(timeoutSeconds, now);
    hw, found := c.Get(ip);
  }

  /** `Set` as written leaves every `Get` answer as it was. */
  method SetKeepsGet(c: ArpCache, ip: seq<Byte>, hw: seq<Byte>, probe: seq<Byte>)
    returns (before: (seq<Byte>, bool), after: (seq<Byte>, bool))
    requires c.Valid()
    ensures before == after
  {
    var h0, f0 := c.Get(probe);
    c.Set(ip, hw);
    var h1, f1 := c.Get(probe);
    before, after := (h0, f0), (h1, f1);
  }

  /** `SetExpiry` and `Delete` as written leave every `Get` answer as it was, and report true. */
  method SetExpiryKeepsGet(c: ArpCache, ip: seq<Byte>, epochSeconds: int, probe: seq<Byte>)
    returns (before: (seq<Byte>, bool), after: (seq<Byte>, bool), ok: bool)
    requires c.Valid()
    ensures before == after && ok
  {
    var h0, f0 := c.Get(probe);
    var ok1 := c.SetExpiry(ip, epochSeconds);
    var ok2 := c.Delete(ip);
    var h1, f1 := c.Get(probe);
    before, after, ok := (h0, f0), (h1, f1), ok1 && ok2;
  }

  /**
   * The round trip that the doc comment of `Set` (arpcache.go:97) promises,
   * as the code is written: on a new cache started at a positive time, `Set`
   * then `Get` of the same address finds nothing.
   */
  method SetThenGetAsWritten(timeoutSeconds: int, now: int, ip: seq<Byte>, mac: seq<Byte>)
    returns (hw: seq<Byte>, found: bool)
    requires 0 < now
    ensures !found && hw == []
  {
    var c := new ArpCache.New(timeoutSeconds, now);
    c.Set(ip, mac);
    hw, found := c.Get(ip);
  }

  /**
   * The same round trip with the store-back `Set`: on any cache whose
   * timeout is not negative, `Get` finds the normalised address that was set.
   */
  method SetThenGetStored(c: ArpCache, ip: seq<Byte>, mac: seq<Byte>)
    returns (hw: seq<Byte>, found: bool)
    requires c.Valid() && 0 <= c.defaultTimeout
    modifies c.cache
    ensures found && hw == HwToBytes(mac)
  {
    c.SetStored(ip, mac);
    hw, found := c.Get(ip);
  }

  /**
   * Expiry with the store-back `Set`: once the epoch has moved past the
   * entry's expiry time, `Get` reports not found, although the address is
   * still in the cell.
   */
  method SetThenExpireStored(c: ArpCache, ip: seq<Byte>, mac: seq<Byte>, later: int)
    returns (hw: seq<Byte>, found: bool)
    requires c.Valid() && later > c.epoch + c.defaultTimeout
    modifies c, c.cache
    ensures !found && hw == []
    ensures c.Valid() && c.Cell(ip).hw == HwToBytes(mac)
  {
    c.SetStored(ip, mac);
    c.Tick(later);
    hw, found := c.Get(ip);
  }

  /**
   * `SetExpiry` as written does not revive an entry: on a new cache started
   * at a positive time, moving the expiry of a cell to the epoch or later
   * still leaves `Get` reporting not found.
   */
  method SetExpiryThenGetAsWritten(timeoutSeconds: int, now: int, ip: seq<Byte>, expires: int)
    returns (hw: seq<Byte>, found: bool, ok: bool)
    requires 0 < now <= expires
    ensures ok && !found && hw == []
  {
    var c := new ArpCache.New(timeoutSeconds, now);
    ok := c.SetExpiry(ip, expires);
    hw, found := c.Get(ip);
  }

  /**
   * With the store-back `SetExpiry`, the same sequence makes the cell live:
   * `Get` finds it with the zero address that `New` left there.
   */
  method SetExpiryThenGetStored(timeoutSeconds: int, now: int, ip: seq<Byte>, expires: int)
    returns (hw: seq<Byte>, found: bool, ok: bool)
    requires 0 < now <= expires
    ensures ok && found && hw == ZeroMac
  {
    var c := new ArpCache.New(timeoutSeconds, now);
    ok := c.SetExpiryStored(ip, expires);
    hw, found := c.Get(ip);
  }

  /**
   * `Delete` as written does not invalidate a live entry: after a stored
   * `Set`, `Get` still finds the address once `Delete` has returned true.
   * The live entry has to come from the store-back `Set`: with `Set` as
   * written no cell is ever written, every cell keeps expiry 0, and with a
   * positive epoch `Get` never finds anything, so this defect of `Delete`
   * cannot be observed in the program as written while that of `Set` is there.
   */
  method DeleteThenGetAsWritten(timeoutSeconds: int, now: int, ip: seq<Byte>, mac: seq<Byte>)
    returns (hw: seq<Byte>, found: bool, ok: bool)
    requires 0 <= timeoutSeconds
    ensures ok && found && hw == HwToBytes(mac)
  {
    var c := new ArpCache.New(timeoutSeconds, now);
    c.SetStored(ip, mac);
    ok := c.Delete(ip);
    hw, found := c.Get(ip);
  }

  /**
   * With the store-back `Delete`, the entry is gone for `Get` whenever the
   * epoch is positive.
   */
  method DeleteThenGetStored(timeoutSeconds: int, now: int, ip: seq<Byte>, mac: seq<Byte>)
    returns (hw: seq<Byte>, found: bool, ok: bool)
    requires 0 < now
    ensures ok && !found && hw == []
  {
    var c := new ArpCache.New(timeoutSeconds, now);
    c.SetStored(ip, mac);
    ok := c.DeleteStored(ip);
    hw, found := c.Get(ip);
  }

  /**
   * A resolve-then-withdraw sequence with store-back writes: New(30), Set of
   * 10.0.0.1, Get finds AA:BB:CC:DD:EE:FF; SetExpiry to 0, Get finds nothing.
   */
  method ResolveThenWithdrawStored(now: int)
    returns (hw1: seq<Byte>, found1: bool, hw2: seq<Byte>, found2: bool)
    requires 0 < now
    ensures found1 && hw1 == HostMac
    ensures !found2 && hw2 == []
  {
    var c := new ArpCache.New(30, now);
    c.SetStored(Host, HostMac);
    hw1, found1 := c.Get(Host);
    var _ := c.SetExpiryStored(Host, 0);
    hw2, found2 := c.Get(Host);
  }

  /**
   * Aliasing: a stored `Set` of one address is what `Get` of any other
   * address with the same last two octets returns.
   */
  method AliasSeesStoredSet(c: ArpCache, a: seq<Byte>, b: seq<Byte>, mac: seq<Byte>)
    returns (hw: seq<Byte>, found: bool)
    requires c.Valid() && 0 <= c.defaultTimeout
    requires |a| >= 2 && |b| >= 2 && a[|a| - 2..] == b[|b| - 2..]
    modifies c.cache
    ensures found && hw == HwToBytes(mac)
  {
    c.SetStored(a, mac);
    SameCellIff(a, b);
    hw, found := c.Get(b);
  }

  /**
   * Aliasing is the only way to share a cell: a stored `Set` of one address
   * leaves `Get` of an address with different last two octets as it was.
   */
  method OtherCellUntouched(c: ArpCache, a: seq<Byte>, b: seq<Byte>, mac: seq<Byte>)
    returns (before: (seq<Byte>, bool), after: (seq<Byte>, bool))
    requires c.Valid()
    requires |a| >= 2 && |b| >= 2 && a[|a| - 2..] != b[|b| - 2..]
    modifies c.cache
    ensures before == after
  {
    var h0, f0 := c.Get(b);
    c.SetStored(a, mac);
    SameCellIff(a, b);
    var h1, f1 := c.Get(b);
    before, after := (h0, f0), (h1, f1);
  }
}
