# arpcache in Dafny

A model of the Go package `arpcache`: a fixed-size ARP cache that maps IPv4
addresses to 48-bit hardware (MAC) addresses with expiry times.

- **Module `Cache`** (`cache.dfy`, from `arpcache.go`).
  - The table is a 256 × 256 `array2<Entry>`. Each `Entry` holds `expires` (seconds) and `hw` (six octets).
  - `IpToInd` picks the cell: the row is the last octet and the offset is the second-to-last octet. An address shorter than two octets uses cell (0, 0).
  - `HwToBytes` normalises a hardware address to its last six octets, or to all zeros.
  - `TickerPeriod` is the ticker period computed by `New`, with Go's truncating division.
  - Class `ArpCache` holds the table, `defaultTimeout` and `epoch`. It has `New`, `Tick`, `SetDefaultTimeout`, `Get`, `Set`, `SetExpiry` and `Delete`. `Tick` is one step of the background ticker.
- **Module `Codec`** (`codec.dfy`, from `arpcache_test.go`).
  - `Uint2Ip` writes a 32-bit number as four big-endian octets.
  - `Ip2Uint` reads them back.
  - `BigEndianValue` is a reference big-endian read of any length, which `Ip2Uint` is proved to agree with.
  - Lemmas relate the two functions to each other and to `IpToInd`.
- **Module `Scenarios`** (`scenarios.dfy`). These are client methods written only against the contracts of `Cache`. They show what `Get` reports after each write.

`Set`, `SetExpiry` and `Delete` are modelled as the code is written. They
compute the new address and expiry into a local copy of the cell
(arpcache.go:102, :112) and never write it back. So they have no `modifies`
clause, and they promise that the object and the table are unchanged. The
doc comments describe a store into the table. That behaviour is modelled
separately by `SetStored`, `SetExpiryStored` and `DeleteStored`, which are
labelled as not being the source's behaviour (see "## Findings").

Notes on the code as written:
- The table is 256 × 256 and is indexed by two octets: the row is the last octet and the offset the second-to-last.
- `Set` as written stores nothing; the store-back behaviour follows the doc comments at arpcache.go:97, :107 and :117.
- The ticker period is `timeoutSeconds / 10`, truncated toward zero and not clamped. It is 0 for timeouts from -9 to 9 and negative only for timeouts of -10 or less.

## Model

| member | source | states |
|---|---|---|
| Cache.IpToInd | arpcache.go:15-23 | the cell is always inside the 256 × 256 table; addresses shorter than two octets give (0, 0); otherwise the row is the last octet and the offset the second-to-last |
| Cache.SameCellIff | arpcache.go:22 | two addresses of at least two octets share a cell if and only if their last two octets are equal |
| Cache.PrefixKeepsCell | arpcache.go:22 | octets placed before an address never change its cell |
| Cache.V4InV6SameCell | arpcache.go:18-22 | the 4-byte and 16-byte (::ffff:a.b.c.d) forms of one IPv4 address map to the same cell |
| Cache.FirstByteKeepsCell | arpcache_test.go:48 | overwriting the first octet (as the benchmark does with `bs[0] = 0xff`) keeps the cell of any address that does not have exactly two octets |
| Cache.HwToBytes | arpcache.go:25-31 | the result is exactly the last six octets when there are at least six, and all zeros otherwise |
| Cache.HwToBytesKeepsMac | arpcache.go:27-28 | a six-octet address is stored unchanged |
| Cache.HwToBytesIdempotent | arpcache.go:25-31 | normalising an already normalised address changes nothing |
| Cache.TickerPeriod | arpcache.go:53-54 | the period is the timeout divided by 10, truncated toward zero: the remainder is in [0, 10) for non-negative timeouts and in (-10, 0] for negative ones |
| Cache.TickerPeriodPositiveIff | arpcache.go:54-56 | the ticker period is positive if and only if the timeout is at least 10 seconds |
| Cache.TickerPeriodOdd | arpcache.go:54 | negating the timeout negates the period, which is truncation and not Euclidean division |
| Cache.ArpCache.New | arpcache.go:52-58 | the table is fresh and every cell is the zero entry (expires 0, zero address); `defaultTimeout` is the given timeout and `epoch` the start time |
| Cache.ArpCache.Tick | arpcache.go:64-65 | the epoch becomes the time read; the table and the timeout are unchanged |
| Cache.ArpCache.SetDefaultTimeout | arpcache.go:77-80 | only `defaultTimeout` changes; the table and `epoch` are unchanged |
| Cache.ArpCache.Get | arpcache.go:82-95 | found if and only if the cell's expiry is not before the epoch (equal counts as found); when found the six stored octets are returned, otherwise an empty address |
| Cache.ArpCache.Set | arpcache.go:97-105 | as written, the object and the whole table are unchanged |
| Cache.ArpCache.SetExpiry | arpcache.go:107-115 | as written, it returns true and the object and the whole table are unchanged |
| Cache.ArpCache.Delete | arpcache.go:117-120 | as written, it returns true and the object and the whole table are unchanged |
| Cache.ArpCache.SetStored | arpcache.go:97-105 | store-back variant: the address's cell holds the normalised address with expiry epoch + timeout, and every other cell is unchanged |
| Cache.ArpCache.SetExpiryStored | arpcache.go:107-115 | store-back variant: it returns true; the address's cell keeps its hardware address and takes the new expiry, and every other cell is unchanged |
| Cache.ArpCache.DeleteStored | arpcache.go:117-120 | store-back variant: it returns true; the address's cell keeps its hardware address and expires at 0, and every other cell is unchanged |
| Codec.BigEndianBytes | arpcache_test.go:66-77 | the encoding of a 32-bit number always has four octets |
| Codec.Uint2Ip | arpcache_test.go:66-77 | the byte-by-byte shifting fill yields the big-endian octets of `n` |
| Codec.Ip2Uint | arpcache_test.go:62-64 | the first octet is the most significant one (`n / 2^24`) and the fourth the least significant (`n % 256`) |
| Codec.BigEndianValue | arpcache_test.go:62-64 | reference big-endian read of an octet string of any length: its value is below 256 to the power of its length |
| Codec.FourOctetsFitUint32 | arpcache_test.go:62-64 | the big-endian value of four octets is below 2^32, so the read fits Go's uint32 |
| Codec.Ip2UintIsBigEndianValue | arpcache_test.go:62-64 | `ip2uint` equals the reference big-endian value of the first four octets |
| Codec.DecodeEncode | arpcache_test.go:62-77 | `ip2uint(uint2ip(n)) == n` for every 32-bit `n` |
| Codec.EncodeDecode | arpcache_test.go:62-77 | `uint2ip(ip2uint(b))` is the first four octets of `b`, which is `b` itself for four octets |
| Codec.CellOfEncoded | arpcache_test.go:66-77 | the cell of `uint2ip(n)` is (n mod 256, (n / 256) mod 256) |
| Codec.EncodedSameCellIff | arpcache_test.go:82-85 | two encoded numbers share a cell if and only if they agree modulo 2^16 |
| Scenarios.NewCacheMisses | arpcache.go:58-92 | on a new cache started at a positive time, `Get` of any address is not found and returns an empty address |
| Scenarios.SetKeepsGet | arpcache.go:98-105 | `Get` of any address gives the same answer before and after `Set` |
| Scenarios.SetExpiryKeepsGet | arpcache.go:108-120 | `Get` of any address gives the same answer before and after `SetExpiry` and `Delete`, and both return true |
| Scenarios.SetThenGetAsWritten | arpcache.go:97-105 | as written, `Set` followed by `Get` on a new cache started at a positive time is not found |
| Scenarios.SetThenGetStored | arpcache.go:97-105 | with store-back, on any cache whose timeout is not negative, `Set` followed by `Get` finds the normalised address |
| Scenarios.SetThenExpireStored | arpcache.go:90-104 | with store-back, after `Set` and a tick to a time past epoch + timeout, `Get` is not found although the address is still in the cell |
| Scenarios.SetExpiryThenGetAsWritten | arpcache.go:107-115 | as written, on a new cache started at a positive time, `SetExpiry` to a time not before the epoch returns true and `Get` is still not found |
| Scenarios.SetExpiryThenGetStored | arpcache.go:107-115 | with store-back, the same sequence makes `Get` find the cell with the zero address left by `New` |
| Scenarios.DeleteThenGetAsWritten | arpcache.go:117-120 | as written, a live entry is still found after `Delete` returns true |
| Scenarios.DeleteThenGetStored | arpcache.go:117-120 | with store-back, after `Delete` the entry is not found whenever the epoch is positive |
| Scenarios.ResolveThenWithdrawStored | arpcache.go:82-115 | with store-back: New(30), Set(10.0.0.1, AA:BB:CC:DD:EE:FF), then Get finds that address; after SetExpiry(10.0.0.1, 0), Get finds nothing |
| Scenarios.AliasSeesStoredSet | arpcache.go:15-22 | on any cache whose timeout is not negative, a stored `Set` of one address is what `Get` returns for any address with the same last two octets |
| Scenarios.OtherCellUntouched | arpcache.go:15-22 | a stored `Set` leaves `Get` unchanged for an address whose last two octets differ |

## Findings

| source | as written | input that shows it | evidently intended | confidence | as-written member | corrected member |
|---|---|---|---|---|---|---|
| arpcache.go:102-104 | `Set` copies the cell into the local `entry`, assigns its fields, and drops the copy | `New(30)` at time 1; `Set(10.0.0.1, AA:BB:CC:DD:EE:FF)`; `Get(10.0.0.1)` gives (nil, false) | the cell stores the address with expiry epoch + timeout, and `Get` gives (AA:BB:CC:DD:EE:FF, true), as the doc comment at arpcache.go:97 says | high; not executed | Scenarios.SetThenGetAsWritten | Scenarios.SetThenGetStored |
| arpcache.go:112-113 | `SetExpiry`, and so `Delete`, change the expiry of a local copy only | `New(30)` at time 1; `SetExpiry(10.0.0.1, 100)` returns true; `Get(10.0.0.1)` gives (nil, false). For `Delete` a live entry is needed, which only the store-back `Set` can create: with `Set` as written every cell keeps expiry 0 and, the epoch being positive, `Delete` has nothing to invalidate (see Scenarios.DeleteThenGetAsWritten and Scenarios.DeleteThenGetStored) | the cell's expiry becomes the given time (0 for `Delete`): here `Get` gives (00:00:00:00:00:00, true), as the doc comments at arpcache.go:107 and :117 say | high; not executed | Scenarios.SetExpiryThenGetAsWritten | Scenarios.SetExpiryThenGetStored |

## Left out

- The ticker goroutine, its control channel and `Stop` (arpcache.go:56-75) involve concurrency and wall-clock time. The epoch is advanced by the explicit `Tick(now)` instead, and the start time is a parameter of `New`.
- The `sync.RWMutex` locking and the atomic store of `epoch` have no sequential effect and are not modelled.
- `time.Now`, `fmt.Sprintf`, `time.ParseDuration` and `time.NewTicker` are library calls. Only the period arithmetic (`TickerPeriod`) is kept. `NewTicker` panics on a period of 0 or less. That happens for timeouts under ten seconds. It also happens for timeouts of 92233720370 seconds or more, because the period in seconds is then too large for a `time.Duration`, so `ParseDuration` returns 0 with an error that arpcache.go:55 discards; that panic and the discarded parse error are library behaviour and are not modelled.
- Cache.ArpCache.Tick: says nothing about monotonicity, because the source stores whatever `time.Now` returns.
- int64 and uint32 widths are not modelled beyond the 32-bit range of `Uint32`. An overflow of `epoch + defaultTimeout` in `Set` does not matter, because the value is discarded. The store-back variant uses unbounded integers.
- Codec.Ip2Uint: requires at least four octets, because `binary.BigEndian.Uint32` panics on a shorter slice.
- The benchmarks, `rand.Seed`/`rand.Shuffle`, the Go map comparisons and the `binary.BigEndian.PutUint32` calls inside the benchmark (arpcache_test.go:11-60, 79-127) measure timing and are not behaviour.
- `Get` returns a slice over a copy of the cell's array in Go. The model returns the six octets as a value, so there is no aliasing to capture.
