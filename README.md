# M24C64 EEPROM driver — Dafny model

A model of the `m24c64-driver` crate. This crate is a driver for the M24C64 64-kbit I2C
EEPROM. The driver object (`M24C64`) owns an I2C bus, the chip address set by the
E pins, and a 34-byte command buffer. That buffer holds a 2-byte big-endian address
header followed by up to one 32-byte page of payload. The driver's operations are:

- `write_raw` writes one page-bounded chunk. It retries on any bus error, with a
  1 ms delay between attempts, and makes 1 + 10 attempts at most.
- `read_raw` makes one `write_read` of the address header, with no retry.
- `write` and `read` take an arbitrary (address, length) request. They walk a
  cursor through it one page-bounded chunk at a time and abort on the first
  chunk that fails.

The crate contains all of these twice: a blocking variant (`src/sync.rs`) and an
`async` variant (`src/async_variant.rs`).

Modules:

- `Paging` (`paging.dfy`) is the cursor walk as a function (`ChunksFrom`, `Chunks`),
  with its coverage, page-bound, order and count lemmas.
- `Hal` (`hal.dfy`) holds the two foreign capabilities. The first is the I2C bus, a
  scripted simulator: each call takes the next scripted reply, and an exhausted
  script always acknowledges. It logs every transaction and acts on a simulated
  memory with the M24C64's page roll-over. The second is the `delay_ms` provider.
  It logs each wait together with the number of transactions its bus had carried
  when the wait began, so the two logs together give the order of writes and waits.
- `Protocol` (`protocol.dfy`) gives each routine of the driver as a function of the
  bus state: `Header`, `BusAddress`, `Attempt`/`WriteRaw`, `ReadRaw`,
  `WriteFrom`/`Write` and `ReadFrom`/`Read`.
- `Driver` (`driver.dfy`) is the class `M24C64`. It has the constructor, the blocking
  methods and the async methods. Each method's loops update the command buffer,
  the bus and the caller's destination array in place. Each method is proved to
  have exactly the effect the matching `Protocol` function gives.
- `Properties` (`properties.dfy`) holds what those functions guarantee: the retry
  bound, the transactions issued and their order, abort on the first failure,
  the memory after a write, the data after a read, and the write-then-read round trip.
- `Scenarios` (`scenarios.dfy`) contains whole runs of the driver's methods on fresh
  simulated buses. They include the blocking/async equivalence.

The blocking and async methods have identical contracts. For the same scripted bus
replies, both produce the same bus log, the same delays, the same memory, the same
destination content and the same result.

Two details of the code that the model keeps exactly:

- A chunk gets up to 11 bus writes and 10 `delay_ms(1)` calls. The retry counter
  starts at 0 and an error, of any kind, is retried while the counter is below 10
  (src/sync.rs:29-63). Each delay comes right after a refused write and before
  its retry (src/sync.rs:47, 61-62). When all 11 writes fail, the error of the
  11th is returned.
- The bus address is `e_addr | 0x50`, the 7-bit I2C address of the device. `e_addr` is
  used as given: it is neither masked to 3 bits nor checked.

## Model

| member | source | states |
|---|---|---|
| Driver.M24C64.New | src/lib.rs:31-36 | stores the bus and `e_addr` exactly as given (no masking); the command buffer is a fresh array of 34 zero bytes; no bus transaction |
| Driver.M24C64.NewBlocking | src/sync.rs:78-80 | the same object as `new`: the given bus and chip address, and a zeroed 34-byte buffer |
| Driver.M24C64.LoadHeader | src/sync.rs:18-19 | buffer bytes 0 and 1 become the big-endian header of `address`; bytes 2..34 are unchanged |
| Driver.M24C64.LoadCommand | src/sync.rs:18-20 | the buffer becomes header + payload in `[0, len+2)`; bytes `[len+2, 34)` are unchanged |
| Driver.M24C64.SendRetrying | src/sync.rs:29-63 | the retry loop's bus state, result and delay log are those of `Attempt` from counter 0 on the buffer's first `n` bytes sent to `e_addr` OR `0x50`; each logged `delay_ms(1)` carries its place among the bus writes, so by `AttemptTrace` it falls right after a refused write and before its retry |
| Driver.M24C64.WriteRawBlocking | src/sync.rs:12-64 | the buffer holds the frame and keeps its tail; the bus, the delays with their places among the writes, and the result are those of `WriteRaw` |
| Driver.M24C64.ReadRawBlocking | src/sync.rs:66-72 | only buffer bytes 0..2 change (to the header); the bus and result are those of one `ReadRaw`; only `dest[lo..hi]` changes |
| Driver.M24C64.WriteBlocking | src/sync.rs:84-110 | the cursor loop's bus state, delay log (with each wait's place among the writes) and result are exactly those of `Write` (the chunk walk, aborting at the first error) |
| Driver.M24C64.ReadBlocking | src/sync.rs:114-138 | the cursor loop's bus state, destination content and result are exactly those of `Read` |
| Driver.M24C64.WriteRawAsync | src/async_variant.rs:8-40 | the same contract as `WriteRawBlocking`; `.await` is sequencing |
| Driver.M24C64.ReadRawAsync | src/async_variant.rs:42-49 | the same contract as `ReadRawBlocking` |
| Driver.M24C64.WriteAsync | src/async_variant.rs:53-72 | the same contract as `WriteBlocking` |
| Driver.M24C64.ReadAsync | src/async_variant.rs:76-93 | the same contract as `ReadBlocking` |
| Protocol.Header | src/sync.rs:18-19 | two bytes whose big-endian value is `address mod 2^16` |
| Protocol.BusAddress | src/sync.rs:33 | the bus address has the 0x50 device-code bits set and keeps every other bit of `e_addr`; for a 3-bit `e_addr` it is `0x50 + e_addr` |
| Protocol.LoadFrame | src/sync.rs:20 | the buffer after the copy: the frame (header then payload) in `[0, len+2)` and the old contents after it; 34 bytes |
| Protocol.Attempt | src/sync.rs:29-63 | the retry loop entered with counter `i`: between 1 and `11-i` writes, one delay fewer than writes; a failure has waited `10-i` times and leaves the memory as it was |
| Protocol.WriteRaw | src/sync.rs:12-64 | one chunk write: 1 to 11 bus writes, `writes - 1` delays; a failure comes after exactly 10 delays and programs nothing |
| Protocol.ReadRaw | src/sync.rs:66-72 | exactly one bus call, whose reply is the result (no retry); the memory is untouched and the destination keeps its length |
| Protocol.WriteFrom | src/sync.rs:99-108 | the write loop from cursor `i`: at most 11 writes and 10 delays per remaining chunk |
| Protocol.Write | src/sync.rs:84-110 | `write`: at most 11 writes and 10 delays per chunk of the request |
| Protocol.ReadFrom | src/sync.rs:128-136 | the read loop from cursor `i`: at most one bus call per remaining chunk; the memory is untouched; the destination keeps its length |
| Protocol.Read | src/sync.rs:114-138 | `read`: at most one bus call per chunk of the request; the memory is untouched; the destination keeps its length |
| Protocol.ChunkEnd | src/sync.rs:101-104 | each chunk is non-empty, ends within the data, and is at most 32 bytes long, so `cmd_buf[2..len+2]` is in bounds |
| Paging.ChunksCorrect | src/sync.rs:99-108 | the chunks concatenate to exactly `[address, address+len)`; each is non-empty, at most 32 bytes, and inside one page; they are adjacent and strictly ascending |
| Paging.SinglePage | src/sync.rs:100 | if `address % 32 + len <= 32`: no chunk when `len == 0`, else exactly `(address, len)` |
| Paging.BoundarySplitExample | src/sync.rs:99-108 | `address 30, len 10` gives `(30, 2)` then `(32, 8)` |
| Paging.ChunkCount | src/sync.rs:99-108 | the number of chunks is the number of pages the request touches |
| Properties.AttemptTrace | src/sync.rs:29-63 | from counter `i`, the loop writes the same frame `min(leading errors, 10-i)+1` times; it waits 1 ms after every write but the last, wait `k` coming right after write `k+1` and so before write `k+2` |
| Properties.AttemptResult | src/sync.rs:29-63 | from counter `i`, the result is `Ok` iff an `Ok` comes within `11-i` replies, else it is the last error; only an acknowledged write changes the memory |
| Properties.WriteRawRetries | src/sync.rs:12-64 | `write_raw` sends header+payload to `e_addr` OR `0x50` between 1 and 11 times, with a 1 ms delay right after each write but the last; it succeeds iff some reply among the first 11 is `Ok`, stopping there; otherwise it returns the 11th error; any error kind is retried |
| Properties.NineFailuresThenOk | src/sync.rs:47 | 9 errors then `Ok`: success after 10 writes, with a delay right after each of the first 9 |
| Properties.TenFailuresThenOk | src/sync.rs:47 | 10 errors then `Ok`: still success, after 11 writes, with a delay right after each of the first 10 |
| Properties.ElevenFailures | src/sync.rs:47-58 | 11 errors: the 11th error is returned after 11 writes and 10 delays (one right after each of the first 10 writes), no 12th write is made, and the memory is unchanged |
| Properties.ChunkRetries | src/sync.rs:99-108 | the writes per chunk that the replies cause: chunk `k` gets its leading errors plus one (at most 11), and the first chunk with more than 10 leading errors ends the write after 11 writes |
| Properties.WriteTrace | src/sync.rs:99-108 | `write` logs the chunk frames in ascending chunk order; chunk `k` is sent `ChunkRetries(replies)[k]` times; it waits 1 ms right after each write that it repeats and at no other point, so never between two chunks (`RetryWaits`); it fails iff `ChunkRetries` says so, and then returns the reply to its last write (the failing chunk's 11th error) with no later chunk attempted; it consumes one reply per write |
| Properties.WriteFromWaits | src/sync.rs:99-108 | from cursor `i`, the write loop's delays are `RetryWaits` of the per-chunk write counts of `ChunkRetries`: a 1 ms wait right after each write that the loop repeats, none between two chunks and none after the last write |
| Properties.AlwaysAckWrite | src/sync.rs:99-108 | on an always-acknowledging bus, `write` succeeds with no delay and logs each chunk's frame exactly once, in order |
| Properties.WriteMemory | src/sync.rs:84-110 | `write` programs exactly cells `[address, done)` with the data: all of it on success; on failure, `done` is the start of the failing chunk (the last one `ChunkRetries` reaches), and every earlier chunk stays committed (no rollback) |
| Properties.ReadRawEffect | src/sync.rs:66-72 | `read_raw` makes exactly one `write_read` to `e_addr` OR `0x50` carrying only the 2-byte header; there is no retry, the memory is unchanged, and the result is that call's reply |
| Properties.ReadRawData | src/sync.rs:70-71 | on success the destination holds the consecutive cells from `address` (mod 2^16); on error it is unchanged |
| Properties.ReadTrace | src/sync.rs:126-137 | `read` issues one `write_read` per chunk in order, up to and including the first failure; it fails iff one of those replies is an error, and returns that first error |
| Properties.ReadData | src/sync.rs:126-137 | `read` fills `[0, stop)` with the stored bytes and leaves the rest untouched: all of it on success; on failure, `stop` is the start of the first chunk whose reply is an error, so every chunk before it holds the values read |
| Properties.AlwaysAckRead | src/sync.rs:126-137 | on an always-acknowledging bus, `read` returns the stored bytes with one `write_read` per chunk |
| Properties.WriteThenRead | examples/sync_stm32f4xx_hal.rs:36-50 | after a successful `write`, a successful `read` of the same range (within 2^16) returns the written data |
| Properties.RoundTripExample | examples/async_embassy.rs:40-56 | writing `[0x10,0x20,0x30,0x40]` at 0x12 then reading 4 bytes gives them back; the write is one frame with no delay |
| Properties.AbortExample | src/sync.rs:106 | a 40-byte write at 30 whose first chunk meets 11 errors fails after its 11 frames and 10 delays, with no attempt on chunks `(32,32)` and `(64,6)`; the memory is unchanged |
| Properties.EmptyRequest | src/sync.rs:100 | with empty data, `write` and `read` make no bus transaction and return `Ok` |
| Properties.HeaderExample | src/sync.rs:18-19 | address 0x1234 gives the header `0x12, 0x34` |
| Scenarios.StoreAndLoad | examples/sync_embassy.rs:24-40 | `write_blocking` then `read_blocking` on an always-acknowledging bus give back the data, with one frame per chunk and no delay |
| Scenarios.BusyDevice | src/sync.rs:29-63 | a device busy for 3 attempts still stores the byte, after 4 frames, with one `delay_ms(1)` right after each of the three refused ones |
| Scenarios.WritesAgree | src/async_variant.rs:53-72 | the blocking and async `write`, given the same replies, yield the same bus log, memory, delays and result |
| Scenarios.ReadsAgree | src/async_variant.rs:76-93 | the blocking and async `read`, given the same replies, yield the same bus log, destination content and result |

## Left out

- The I2C protocol itself (START, address and R/W bit, ACK framing) belongs to the embedded-hal `I2c` implementation. It is foreign code. The bus is a scripted simulator whose replies are a parameter (`Hal.I2cBus`).
- The simulated memory has 2^16 cells and a 16-bit address counter: a write rolls over inside its 32-byte page, and a sequential read wraps at 0x10000 (`Hal.Cell`, `Hal.Fetch`). The M24C64 itself holds 8192 bytes and ignores the top three bits of the header, so on the real part addresses 0x2000 apart are one cell and a sequential read wraps at 0x2000. The simulator keeps them as distinct cells, and `Properties.ReadData`, `Properties.WriteMemory` and `Properties.WriteThenRead` speak of this 2^16-cell memory. The driver itself never tracks the device. The device's Ready/Busy state is not modelled; a busy device is a scripted error reply.
- Real timing of `delay_ms`: the delay provider only records each wait's length and its place among the bus transactions.
- Driver.M24C64.SendRetrying, Driver.M24C64.WriteRawBlocking, Driver.M24C64.WriteBlocking, Driver.M24C64.WriteRawAsync and Driver.M24C64.WriteAsync require `delay.bus == i2c`. The source asks nothing of the delay. This precondition only sets up the simulation: the simulated delay places its waits among the transactions of the bus it is timed against, and the contract is stated for the driver's own bus.
- The async executor: each `.await` is an ordinary sequential call, and no other task is interleaved.
- The feature-gated `defmt` logging calls (src/sync.rs:37-43, 49-55, 91-96, 119-124) only log.
- The commented-out unbounded polling loop (src/sync.rs:25, src/async_variant.rs:21) is dead code.
- Driver.M24C64.WriteBlocking: `usize` arithmetic is not modelled. Addresses are naturals, and the method requires `address + len + 32 <= 2^32` (32-bit targets), so that neither `address + data.len()` nor the last cursor step overflows. The code itself checks no bound, neither against `usize` nor against the 8192-byte device.
- Driver.M24C64.ReadBlocking, Driver.M24C64.WriteAsync and Driver.M24C64.ReadAsync carry the same `usize` precondition.
- Properties.WriteThenRead: the round trip is stated for requests inside the 16-bit address space. Beyond it, the header wraps modulo 2^16 and a request may overwrite its own start.
- Properties.WriteMemory: likewise stated only for requests inside the 16-bit address space. The driver accepts any address, and the header then wraps modulo 2^16.
- Properties.ReadRawData: on an error it says the destination is unchanged. That is a choice of the simulated bus (`Hal.I2cBus.WriteRead`). The driver hands the slice to the foreign `write_read` (src/sync.rs:70-71) and promises nothing about its content after a failed call.
- Properties.ReadData: the same simulator choice fixes the failing chunk's part of the destination. That the chunks after the failing one stay untouched is the driver's own guarantee, since it makes no further call.
- Properties.WriteMemory: that a failed chunk write programs nothing is a choice of the simulated bus (`Hal.BusWrite`). A real device that failed mid-frame could have changed the page. The driver itself promises only that no later chunk is written.
- Properties.ElevenFailures, Properties.AbortExample, Properties.AttemptResult, Properties.WriteRawRetries, Protocol.Attempt and Protocol.WriteRaw also state "memory unchanged" on a failed write. That is the same simulator choice.
- The `I2C` and `E` generic parameters are not modelled. The error type is the embedded-hal `ErrorKind` set, and the driver passes it on verbatim.
