/**
 * The driver's protocol as functions of the state it acts on: the simulated
 * bus and the 34-byte command buffer. Each function follows one routine of
 * the driver (sync.rs and async_variant.rs share them) and yields the new
 * state, the delays the routine asked for (each placed after the bus
 * transaction it follows), and its result.
 * The methods of `Driver.M24C64` are proved to have exactly these effects.
 */
module Protocol {
  import opened Paging
  import opened Hal

  /** The command buffer: a 2-byte address header and up to one page of payload. */
  const HeaderLen: nat := 2
  const BufLen: nat := HeaderLen + PageSize

  /** The M24C64 device-type identifier, as a 7-bit I2C address. */
  const DeviceCode: bv8 := 0x50

  /** A write is retried while the retry counter, starting at 0, is below this. */
  const MaxRetries: nat := 10

  /** The effect of a write routine: new bus state, its `delay_ms` calls in order, result. */
  datatype Step = Step(bus: BusState, waits: seq<Wait>, outcome: Outcome)

  /** The effect of a read routine: new bus state, result, new content of the destination. */
  datatype ReadStep = ReadStep(bus: BusState, outcome: Outcome, data: seq<byte>)

  /**
   * The 2-byte header: `(address >> 8) as u8` then `(address & 0xFF) as u8`,
   * i.e. the big-endian encoding of the address modulo 2^16.
   */
  function Header(address: nat): (h: seq<byte>)
    ensures |h| == HeaderLen
    ensures StartAddress(h) == address % AddressSpace
  {
    var hi, lo := (address / 256) % 256, address % 256;
    BigEndian(address);
    ByteRoundTrip(hi);
    ByteRoundTrip(lo);
    [hi as byte, lo as byte]
  }

  lemma ByteRoundTrip(x: nat)
    requires x < 256
    ensures (x as byte) as nat == x
  {
  }

  lemma BigEndian(a: nat)
    ensures ((a / 256) % 256) * 256 + a % 256 == a % AddressSpace
  {
    var q, r := a / 256, a % 256;
    var q1, q0 := q / 256, q % 256;
    assert a == 256 * q + r;
    assert q == 256 * q1 + q0;
    Regroup(q1, q0, r);
    ModOfSum(q1, 256 * q0 + r);
  }

  lemma Regroup(q1: nat, q0: nat, r: nat)
    ensures 256 * (256 * q1 + q0) + r == AddressSpace * q1 + (256 * q0 + r)
  {
  }

  lemma ModOfSum(q: nat, x: nat)
    requires x < AddressSpace
    ensures (AddressSpace * q + x) % AddressSpace == x
  {
  }

  /** The 7-bit bus address `e_addr | 0x50`; the chip address is neither masked nor checked. */
  function BusAddress(eAddr: bv8): (b: bv8)
    ensures b & DeviceCode == DeviceCode
    ensures b & !DeviceCode == eAddr & !DeviceCode
    ensures eAddr < 8 ==> b as int == DeviceCode as int + eAddr as int
  {
    eAddr | DeviceCode
  }

  /** `s` preceded by the delays `before`. */
  function Delayed(s: Step, before: seq<Wait>): Step {
    s.(waits := before + s.waits)
  }

  /** The frame `write_raw` sends: the address header, then the payload. */
  function Frame(address: nat, bytes: seq<byte>): (f: seq<byte>)
    ensures |f| == HeaderLen + |bytes| && f[..HeaderLen] == Header(address) && f[HeaderLen..] == bytes
  {
    Header(address) + bytes
  }

  /**
   * The command buffer after `write_raw` has filled it: the frame, then what
   * was already there.
   */
  function LoadFrame(cmd: seq<byte>, address: nat, bytes: seq<byte>): (c: seq<byte>)
    requires |cmd| == BufLen && |bytes| <= PageSize
    ensures |c| == BufLen
    ensures c[..|bytes| + HeaderLen] == Frame(address, bytes)
    ensures c[|bytes| + HeaderLen..] == cmd[|bytes| + HeaderLen..]
  {
    Frame(address, bytes) + cmd[|bytes| + HeaderLen..]
  }

  /**
   * The retry loop of `write_raw`, entered with the retry counter at `i`:
   * write `frame` to `addr`; stop at the first `Ok`; after an error, delay
   * 1 ms and try again while the counter is below `MaxRetries`; otherwise
   * return that error.
   */
  function Attempt(bus: BusState, addr: bv8, frame: seq<byte>, i: nat): (r: Step)
    requires i <= MaxRetries
    ensures |bus.log| < |r.bus.log| <= |bus.log| + MaxRetries - i + 1
    ensures |r.waits| == |r.bus.log| - |bus.log| - 1
    ensures r.outcome.Err? ==> |r.waits| == MaxRetries - i && r.bus.mem == bus.mem
    decreases MaxRetries - i
  {
    var resp := BusWrite(bus, addr, frame);
    match resp.reply
    case Ok => Step(resp.state, [], Ok)
    case Err(e) =>
      if i < MaxRetries then Delayed(Attempt(resp.state, addr, frame, i + 1), [Wait(1, |resp.state.log|)])
      else Step(resp.state, [], Err(e))
  }

  /** One turn of the retry loop. */
  lemma AttemptStep(bus: BusState, addr: bv8, frame: seq<byte>, i: nat)
    requires i <= MaxRetries
    ensures var resp := BusWrite(bus, addr, frame);
      Attempt(bus, addr, frame, i)
      == if resp.reply.Ok? then Step(resp.state, [], Ok)
         else if i < MaxRetries then Delayed(Attempt(resp.state, addr, frame, i + 1), [Wait(1, |resp.state.log|)])
         else Step(resp.state, [], resp.reply)
  {
    hide Program;
  }

  /** `write_raw(address, bytes, delay)`: the retry loop on the frame of `bytes`. */
  function WriteRaw(bus: BusState, eAddr: bv8, address: nat, bytes: seq<byte>): (r: Step)
    ensures |bus.log| < |r.bus.log| <= |bus.log| + MaxRetries + 1
    ensures |r.waits| == |r.bus.log| - |bus.log| - 1
    ensures r.outcome.Err? ==> |r.waits| == MaxRetries && r.bus.mem == bus.mem
  {
    Attempt(bus, BusAddress(eAddr), Frame(address, bytes), 0)
  }

  /**
   * `read_raw(address, bytes)`: one write_read of the address header; `dest`
   * is the destination's current content, kept when the call fails. The
   * result is that of the one bus call: no retry.
   */
  function ReadRaw(bus: BusState, eAddr: bv8, address: nat, dest: seq<byte>): (r: ReadStep)
    ensures |r.data| == |dest|
    ensures |r.bus.log| == |bus.log| + 1 && r.bus.mem == bus.mem
    ensures r.outcome == NextReply(bus.script) && r.bus.script == Rest(bus.script)
  {
    var resp := BusWriteRead(bus, BusAddress(eAddr), Header(address), |dest|);
    ReadStep(resp.state, resp.reply, if resp.reply.Ok? then resp.read else dest)
  }

  /** The position just past the part of the request that the chunk at cursor `i` carries. */
  function ChunkEnd(address: nat, n: nat, i: nat): (hi: nat)
    requires address <= i < address + n
    ensures i - address < hi <= n && hi - (i - address) <= PageSize
    ensures hi == Min(i - address + Advance(i), n)
  {
    Min(i - address + (PageSize - i % PageSize), n)
  }

  /**
   * The write loop of `write` from cursor `i` on: `write_raw` of the bytes up
   * to the next page boundary or the end of `data`; the first error ends the
   * operation (the `?` operator) and the remaining chunks are not attempted.
   */
  function WriteFrom(bus: BusState, eAddr: bv8, address: nat, data: seq<byte>, i: nat): (r: Step)
    requires address <= i
    ensures |bus.log| <= |r.bus.log| <= |bus.log| + (MaxRetries + 1) * |ChunksFrom(i, address + |data|)|
    ensures |r.waits| <= MaxRetries * |ChunksFrom(i, address + |data|)|
    decreases address + |data| - i
  {
    if i < address + |data| then
      var s := WriteRaw(bus, eAddr, i, data[i - address..ChunkEnd(address, |data|, i)]);
      if s.outcome.Err? then s
      else Delayed(WriteFrom(s.bus, eAddr, address, data, i + Advance(i)), s.waits)
    else
      Step(bus, [], Ok)
  }

  /** One turn of the write loop: the chunk at the cursor, then the rest unless it failed. */
  lemma WriteFromStep(bus: BusState, eAddr: bv8, address: nat, data: seq<byte>, i: nat)
    requires address <= i < address + |data|
    ensures var s := WriteRaw(bus, eAddr, i, data[i - address..ChunkEnd(address, |data|, i)]);
      WriteFrom(bus, eAddr, address, data, i)
      == if s.outcome.Err? then s else Delayed(WriteFrom(s.bus, eAddr, address, data, i + Advance(i)), s.waits)
  {
    hide WriteRaw;
  }

  /** The write loop with its cursor at the end: nothing happens. */
  lemma WriteFromDone(bus: BusState, eAddr: bv8, address: nat, data: seq<byte>, i: nat)
    requires address + |data| <= i
    ensures WriteFrom(bus, eAddr, address, data, i) == Step(bus, [], Ok)
  {
  }

  /** `write(address, data, delay)`. */
  function Write(bus: BusState, eAddr: bv8, address: nat, data: seq<byte>): (r: Step)
    ensures |bus.log| <= |r.bus.log| <= |bus.log| + (MaxRetries + 1) * |Chunks(address, |data|)|
    ensures |r.waits| <= MaxRetries * |Chunks(address, |data|)|
  {
    WriteFrom(bus, eAddr, address, data, address)
  }

  /** `data` with positions `[lo, hi)` replaced by `part`. */
  function Splice(data: seq<byte>, lo: nat, hi: nat, part: seq<byte>): (r: seq<byte>)
    requires lo <= hi <= |data| && |part| == hi - lo
    ensures |r| == |data|
  {
    data[..lo] + part + data[hi..]
  }

  /** Position `p` of a splice comes from `part` inside `[lo, hi)` and from `data` outside. */
  lemma SpliceAt(data: seq<byte>, lo: nat, hi: nat, part: seq<byte>, p: nat)
    requires lo <= hi <= |data| && |part| == hi - lo && p < |data|
    ensures Splice(data, lo, hi, part)[p] == if lo <= p < hi then part[p - lo] else data[p]
  {
  }

  /**
   * The read loop of `read` from cursor `i` on: `read_raw` of the chunk at
   * `i` into its part of the destination `data`; the first error ends the
   * operation.
   */
  function ReadFrom(bus: BusState, eAddr: bv8, address: nat, data: seq<byte>, i: nat): (r: ReadStep)
    requires address <= i
    ensures |r.data| == |data| && r.bus.mem == bus.mem
    ensures |bus.log| <= |r.bus.log| <= |bus.log| + |ChunksFrom(i, address + |data|)|
    decreases address + |data| - i
  {
    if i < address + |data| then
      var lo, hi := i - address, ChunkEnd(address, |data|, i);
      var s := ReadRaw(bus, eAddr, i, data[lo..hi]);
      var data' := Splice(data, lo, hi, s.data);
      if s.outcome.Err? then ReadStep(s.bus, s.outcome, data')
      else ReadFrom(s.bus, eAddr, address, data', i + Advance(i))
    else
      ReadStep(bus, Ok, data)
  }

  /** One turn of the read loop: the chunk at the cursor, then the rest unless it failed. */
  lemma ReadFromStep(bus: BusState, eAddr: bv8, address: nat, data: seq<byte>, i: nat)
    requires address <= i < address + |data|
    ensures var lo, hi := i - address, ChunkEnd(address, |data|, i);
      var s := ReadRaw(bus, eAddr, i, data[lo..hi]);
      var data' := Splice(data, lo, hi, s.data);
      ReadFrom(bus, eAddr, address, data, i)
      == if s.outcome.Err? then ReadStep(s.bus, s.outcome, data')
         else ReadFrom(s.bus, eAddr, address, data', i + Advance(i))
  {
    hide ReadRaw;
  }

  /** The read loop with its cursor at the end: nothing happens. */
  lemma ReadFromDone(bus: BusState, eAddr: bv8, address: nat, data: seq<byte>, i: nat)
    requires address + |data| <= i
    ensures ReadFrom(bus, eAddr, address, data, i) == ReadStep(bus, Ok, data)
    ensures ChunksFrom(i, address + |data|) == []
  {
  }

  /** `read(address, data)`. */
  function Read(bus: BusState, eAddr: bv8, address: nat, data: seq<byte>): (r: ReadStep)
    ensures |r.data| == |data| && r.bus.mem == bus.mem
    ensures |bus.log| <= |r.bus.log| <= |bus.log| + |Chunks(address, |data|)|
  {
    ReadFrom(bus, eAddr, address, data, address)
  }
}
