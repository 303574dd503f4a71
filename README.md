# EEPROM_24C256 driver model

A Dafny model of `EEPROM_24C256`, a small C++ driver for the 24C256 I2C
EEPROM (32 KB in 512 pages of 64 bytes) on the Raspberry Pi Pico. The
driver has no memory of its own. Each method turns an address and some data
into I2C transfers on a peripheral it was handed. With auto-wait on, each
write is followed by a fixed 10 ms pause. The model records those transfers
and pauses, in order, in one log. It proves that every method appends exactly
the traffic the source produces.

Modules:

- `Wire` (wire.dfy) holds the constants (`EEPROM_PAGE_SIZE`,
  `EEPROM_PAGE_COUNT`, `PICO_ERROR_GENERIC`), `uint8_t`/`uint16_t` as integer
  ranges, and the C conversions written as reductions modulo 2^8 and 2^16. It
  also holds the big-endian address split and its inverse, the log `Event`s,
  and the `Reply` a device gives to a read.
- `PicoSdk` (pico_sdk.dfy) holds `Bus`, the I2C peripheral
  (`i2c_inst_t`), as a class whose `log` field each SDK call extends:
  `i2c_write_blocking`, `i2c_read_blocking` and `sleep_ms`. What the device
  answers to a read is a `Reply` passed in by the caller.
- `Schedule` (schedule.dfy) holds the traffic of each operation as pure
  values:
  - the frame of a single write;
  - the address-then-read pair of a read;
  - `Plan`, the page and byte writes `write_array` cuts its data into (`PlanFrom` follows the loop stride by stride);
  - `SweepTrace`, the 512 page reads of `dump`.

  It also holds the lemmas about all of these.
- `Eeprom` (eeprom.dfy) holds the class `Driver`, with the three
  configuration fields as constants and one method per driver operation.
  Each method's postcondition ties the new log to the `Schedule` trace.
  `write_array`'s two loops and `dump`'s loop keep their loops.

`read_page` is documented to return the number of bytes read or
`PICO_ERROR_GENERIC`. Its declared result type is `uint8_t`, so the code hands
back the SDK status narrowed to 8 bits. The model follows the code: success
gives 64, and a failed read gives 254 where PICO_ERROR_GENERIC is -2 (`Eeprom.Driver.ReadPage`,
`Eeprom.ReadPageStatusNarrowed`).

`write_array` does no bounds checking. The model keeps the source's
behaviour: every target address is `(address + offset) mod 2^16`.
`Schedule.PlanCellsInMemory` states what holds when the caller meets the
documented obligation (`address + length` at most 32768): byte t lands at
`address + t` exactly.

## Model

| member | source | states |
|---|---|---|
| Wire.ToUint8 | eeprom_24C256.cpp:65-73 | conversion of the SDK's `int` status to `uint8_t`: the result is a byte congruent to the input modulo 256 |
| Wire.Wrap16 | eeprom_24C256.cpp:89 | conversion of the `int` address `address + i + j` (and `address + i`, `i` at lines 79 and 92) to the `uint16_t` parameter: the result is the 16-bit value congruent to the input modulo 2^16 |
| Wire.Hi | eeprom_24C256.cpp:27 | the first address byte `(address >> 8) & 0xFF` is the byte h with 256h <= address < 256h + 256 |
| Wire.Lo | eeprom_24C256.cpp:28 | the second address byte `address & 0xFF` is what remains of the address once the high byte is taken out: hi * 256 + lo == address |
| Wire.Join | eeprom_24C256.cpp:27-28 | joining a high and a low byte gives the address whose quotient by 256 is the high byte and whose remainder is the low byte |
| Wire.AddressFrame | eeprom_24C256.cpp:57 | the two-byte address frame satisfies hi * 256 + lo == address |
| Wire.SplitJoin | eeprom_24C256.cpp:27-28 | the big-endian split is exact both ways: join(split(a)) == a and split(join(h, l)) == (h, l) |
| Wire.AddressFrameInjective | eeprom_24C256.cpp:70 | distinct addresses never send the same address frame |
| PicoSdk.Bus.WriteBlocking | eeprom_24C256.cpp:31 | `i2c_write_blocking` appends exactly one write of the given bytes, with the given stop flag, to the log |
| PicoSdk.Bus.ReadBlocking | eeprom_24C256.cpp:73 | `i2c_read_blocking` appends one read of `len` bytes. On an acknowledged read it fills exactly `dst[offset .. offset+len)` and returns `len`. Otherwise it leaves `dst` unchanged and returns PICO_ERROR_GENERIC |
| PicoSdk.Bus.SleepMs | eeprom_24C256.cpp:15 | `sleep_ms` appends one pause of the given length and nothing else |
| Schedule.WaitTrace | eeprom_24C256.cpp:32-34 | after a write there is at most one event, a 10 ms pause. It is present exactly when auto-wait is on |
| Schedule.Frame | eeprom_24C256.cpp:42-45 | a write's frame is two bytes longer than its payload (the address bytes in front) |
| Schedule.OpTrace | eeprom_24C256.cpp:30-34 | one write call logs its frame as a single transfer with a stop first, then only pauses, and has two entries exactly when auto-wait is on |
| Schedule.ReadTrace | eeprom_24C256.cpp:57-61 | one read call logs two entries, both to the device: the address frame sent without a stop, then a read of `len` bytes with a stop, and never a pause |
| Schedule.PlanTrace | eeprom_24C256.cpp:85-94 | a run of write calls logs two entries per call with auto-wait and one per call without |
| Schedule.FrameLayout | eeprom_24C256.cpp:42-46 | a write frame's first two bytes join back to the target address, and the rest is the payload (the page for `write_page`, the single value for `write_byte`) in order |
| Schedule.ByteFrameLayout | eeprom_24C256.cpp:30 | `write_byte`'s frame is exactly [hi(address), lo(address), value] |
| Schedule.PageFrameLayout | eeprom_24C256.cpp:42-45 | `write_page`'s frame is 66 bytes: hi, lo, then data byte k at index 2 + k for every k < 64 |
| Schedule.PlanTraceAppend | eeprom_24C256.cpp:85-94 | the traffic of two runs of write calls is the first run's traffic followed by the second's |
| Schedule.PlanTraceLayout | eeprom_24C256.cpp:25-50 | the auto-wait rule over any run of writes. With auto-wait, entry 2k is call k's frame sent with a stop and entry 2k+1 is a 10 ms pause. Without it, the traffic is the frames alone, with no pause anywhere |
| Schedule.PageStep | eeprom_24C256.cpp:91-93 | a full stride of `write_array` adds one page write of the next 64 bytes at `address + i`. That keeps "calls so far + calls to come = all calls" and extends the traffic by that call's |
| Schedule.TailStep | eeprom_24C256.cpp:86-90 | a short final stride adds the byte writes of the remaining bytes. That completes the calls, and the loop then stops |
| Schedule.TailWrites | eeprom_24C256.cpp:88-90 | the inner loop makes `length - i` calls, all of them byte writes |
| Schedule.PlanFrom | eeprom_24C256.cpp:85-94 | the calls `write_array` makes from counter i on; every page write among them carries exactly 64 bytes |
| Schedule.Plan | eeprom_24C256.cpp:83-95 | `write_array(a, d, L)` makes L/64 + L%64 calls, and every page write among them carries exactly 64 bytes |
| Schedule.PlanFromLength | eeprom_24C256.cpp:85-94 | from counter i, with m whole pages and r < 64 bytes left, the loop makes m + r calls |
| Schedule.PlanFromPage | eeprom_24C256.cpp:91-93 | from counter i, call k < m is the page write of bytes [i+64k, i+64k+64) to `(address + i + 64k) mod 2^16` |
| Schedule.PlanFromByte | eeprom_24C256.cpp:86-90 | from counter i, call m + j is the byte write of leftover byte j to `(address + i + 64m + j) mod 2^16` |
| Schedule.PlanLayout | eeprom_24C256.cpp:83-95 | `write_array(a, d, L)` makes L/64 page writes and then L%64 byte writes. Page call k goes to `(a + 64k) mod 2^16` with `d[64k .. 64k+64)`. Byte call j goes to the address just past the pages plus j, with the matching byte |
| Schedule.PlanSpecialCases | eeprom_24C256.cpp:85-93 | L == 0 makes no call. L < 64 makes only byte writes, one per byte. L a multiple of 64 makes only page writes, one per page |
| Schedule.PlanPagesAligned | eeprom_24C256.cpp:92 | from a page-aligned start address, every page write is page-aligned |
| Schedule.Cells | eeprom_24C256.cpp:92 | the (address, value) pairs one call is meant to store: one per payload byte |
| Schedule.AllCells | eeprom_24C256.cpp:85-94 | the pairs of a run of calls, in order; there are none exactly when no call carries a byte |
| Schedule.TailCells | eeprom_24C256.cpp:88-90 | the byte loop stores exactly `data[i .. length)`, byte by byte, at consecutive addresses |
| Schedule.PageCells | eeprom_24C256.cpp:92 | a page write at `address + i` stores `data[i .. i+64)` at consecutive addresses |
| Schedule.PlanFromCells | eeprom_24C256.cpp:85-94 | from counter i, the calls store exactly `data[i ..]` at consecutive addresses from `address + i` |
| Schedule.PlanCells | eeprom_24C256.cpp:83-95 | taken together, `write_array`'s calls carry exactly the L data bytes in order, byte t meant for `(address + t) mod 2^16`. Nothing is skipped, repeated or reordered |
| Schedule.PlanCellsInMemory | eeprom_24C256.h:69 | when the caller keeps `address + L` within 32768, no address wraps and byte t goes to `address + t` |
| Schedule.SweepTrace | eeprom_24C256.cpp:78-80 | the traffic of the first n passes of `dump`'s loop: two entries per pass |
| Schedule.SweepStep | eeprom_24C256.cpp:78-79 | iteration k of `dump`'s loop adds `read_page(64k)`'s traffic to the sweep |
| Schedule.SweepLayout | eeprom_24C256.cpp:78-80 | `dump`'s traffic has 2n entries for n page reads. Entry 2k is the address frame of 64k sent without a stop. Entry 2k+1 is a 64-byte read, in increasing k |
| Schedule.SweepRegionsTile | eeprom_24C256.cpp:78-80 | the 512 reads of the sweep tile [0, 32768): for every byte p, address write 2(p/64) of `dump`'s traffic names the page holding p and is followed by a 64-byte read; no other address write of the sweep names a page holding p. Since `dump` reads page s into `buffer[s ..]`, these are also the buffer regions |
| Eeprom.WaitForEepromReady | eeprom_24C256.cpp:11-16 | waiting for the chip appends exactly one 10 ms pause |
| Eeprom.ReadPageStatusNarrowed | eeprom_24C256.h:56-58 | a status of 64 survives the narrowing to `uint8_t`. PICO_ERROR_GENERIC (-2) becomes 254, which differs from the documented error value |
| Eeprom.Driver.constructor | eeprom_24C256.cpp:18-23 | the peripheral, device address and auto-wait flag are stored as given, with auto-wait true by default. They are constants and never change. The device address is a 7-bit address |
| Eeprom.Driver.WriteByte | eeprom_24C256.cpp:25-35 | `write_byte` appends exactly one write of [hi, lo, value] with a stop, then a 10 ms pause when auto-wait is on |
| Eeprom.Driver.WritePage | eeprom_24C256.cpp:37-50 | `write_page` appends exactly one write of the 66-byte frame (address, then the first 64 data bytes) with a stop, then a 10 ms pause when auto-wait is on. The data must hold 64 bytes |
| Eeprom.Driver.ReadByte | eeprom_24C256.cpp:52-63 | `read_byte` appends the address frame without a stop, then a one-byte read with a stop, and never a pause. On an acknowledged read it returns the byte the chip sent |
| Eeprom.Driver.ReadPage | eeprom_24C256.cpp:65-74 | `read_page` appends the address frame without a stop, then a 64-byte read with a stop, and never a pause. It returns PICO_ERROR_GENERIC narrowed to `uint8_t` (254) on failure, and 64 exactly when the read is acknowledged. On success it fills exactly `buffer[offset .. offset+64)` with the chip's bytes; otherwise the buffer is unchanged |
| Eeprom.Driver.Dump | eeprom_24C256.cpp:76-81 | `dump` appends exactly the 512-read sweep. Each byte p < 32768 of the buffer ends up as the chip sent it in read p/64, or unchanged when that read failed. The rest of the buffer is untouched |
| Eeprom.Driver.WriteTail | eeprom_24C256.cpp:88-90 | the inner loop appends exactly the traffic of the byte writes of `data[i .. length)`, byte i+j to `(address + i + j) mod 2^16` |
| Eeprom.Driver.WriteStride | eeprom_24C256.cpp:86-93 | one pass of `write_array`'s loop appends exactly the traffic of the calls `Plan` makes at that counter, keeping "calls so far + calls to come = all calls" |
| Eeprom.Driver.WriteArray | eeprom_24C256.cpp:83-95 | `write_array` appends exactly the traffic of `Plan(address, data[..length])`, whose shape `PlanLayout`, `PlanSpecialCases` and `PlanCells` state |

## Left out

- The Pico SDK's own code is not part of this model. `i2c_write_blocking`, `i2c_read_blocking` and `sleep_ms` are modelled only by their effect on the log and the buffer. The result of a read is supplied by the caller as a `Reply`.
- The result of a write transfer is not modelled. The source stores it in `a`/`res` and never uses it.
- Time is not modelled. `sleep_ms(10)` is only a `Sleep(10)` entry in the log.
- The 24C256's own behaviour is not modelled, because none of it is in the driver. That covers page wrap-around inside the chip, the write-cycle latency, the current-address pointer, and what the chip stores.
- Concurrency and sharing of the I2C peripheral are not modelled. The driver is single-threaded and has no locking.
- PicoSdk.Bus.ReadBlocking: assumes a successful read transfers exactly the requested number of bytes (`Fits`).
- Eeprom.Driver.Dump: assumes the same of each of its 512 replies.
- PicoSdk.Bus.ReadBlocking: assumes a failed read writes nothing into `dst`. The documented failure causes (address not acknowledged, no device present) stop the transfer before the first data byte. `Eeprom.Driver.ReadPage`'s and `Eeprom.Driver.Dump`'s "buffer unchanged on failure" rests on this.
- Eeprom.Driver.ReadByte: on a failed read the result is left unconstrained, because the source returns an uninitialised local.
- Eeprom.Driver.WriteArray: does not model overflow of the `int` loop counter for lengths near `INT_MAX`. It also does not model the mixed `int`/`size_t` comparison; lengths are unbounded naturals.
- Eeprom.Driver.constructor: requires the device address to be below 128, as documented. The source does not check it.
- C pointers are modelled in two ways. A buffer the driver writes into is an array with an offset (`&buffer[i]` is `buffer, i`). Data it only reads is a sequence slice (`&data[i]` is `data[i..]`). Aliasing between the two is not modelled.
