/**
 * The two capabilities the driver consumes: an I2C bus (embedded-hal's
 * `I2c::write` and `I2c::write_read`) and a millisecond delay (`DelayNs::delay_ms`).
 *
 * Both are foreign code. Here the bus is a scripted simulator: every call
 * consumes the next entry of `script` as its result (an exhausted script
 * answers `Ok`, i.e. an always-acknowledging device), records the transaction
 * in `log`, and on success acts on a simulated EEPROM memory `mem` the way the
 * M24C64 does: a write frame is a 2-byte big-endian address followed by data
 * bytes that are programmed with page roll-over, and a write_read returns
 * consecutive bytes from the address in its header. The delay is timed
 * against a bus: it records the length of every wait it is asked for and how
 * many transactions that bus had carried when the wait began, so the log of
 * the bus and the log of the delay together give the order of the two.
 */
module Hal {
  import opened Paging

  /** A `u8`. */
  newtype byte = x: int | 0 <= x < 256

  /** The error kinds of an I2C transport (embedded-hal's `i2c::ErrorKind`). */
  datatype BusError = Bus | ArbitrationLoss | NoAcknowledge | Overrun | Other

  /** `Result<(), E>`, the result of every bus call and of every driver operation. */
  datatype Outcome = Ok | Err(error: BusError)

  /** One bus transaction: the 7-bit target address and the bytes written. */
  datatype Tx =
    | WriteTx(addr: bv8, bytes: seq<byte>)
    | WriteReadTx(addr: bv8, bytes: seq<byte>, readLen: nat)

  /** The simulator's state: remaining scripted results, transactions so far, memory. */
  datatype BusState = BusState(script: seq<Outcome>, log: seq<Tx>, mem: map<nat, byte>)

  /** What one bus call returns: the new state, its result and the bytes read. */
  datatype Response = Response(state: BusState, reply: Outcome, read: seq<byte>)

  /** The device's 16-bit address register wraps at this value. */
  const AddressSpace: nat := 0x10000

  /** The content of a cell that was never programmed. */
  const Erased: byte := 0xFF

  function NextReply(script: seq<Outcome>): Outcome {
    if script == [] then Ok else script[0]
  }

  function Rest(script: seq<Outcome>): seq<Outcome> {
    if script == [] then [] else script[1..]
  }

  function Cell(mem: map<nat, byte>, c: nat): byte {
    if c in mem then mem[c] else Erased
  }

  /** The address a frame's first two bytes select (big-endian); 0 for a shorter frame. */
  function StartAddress(bytes: seq<byte>): nat {
    if |bytes| >= 2 then bytes[0] as nat * 256 + bytes[1] as nat else 0
  }

  /** The device's internal address counter during a page write rolls over inside the page. */
  function NextInPage(a: nat): nat {
    a - a % PageSize + (a % PageSize + 1) % PageSize
  }

  /** Programs `payload` from address `a` on, rolling over at the end of `a`'s page. */
  function ProgramPage(mem: map<nat, byte>, a: nat, payload: seq<byte>): map<nat, byte>
    decreases |payload|
  {
    if payload == [] then mem else ProgramPage(mem[a := payload[0]], NextInPage(a), payload[1..])
  }

  /** The effect of an acknowledged write frame: header, then the data to program. */
  function Program(mem: map<nat, byte>, frame: seq<byte>): map<nat, byte> {
    if |frame| < 2 then mem else ProgramPage(mem, StartAddress(frame), frame[2..])
  }

  /** A sequential read of `n` bytes from address `a`. */
  function Fetch(mem: map<nat, byte>, a: nat, n: nat): (r: seq<byte>)
    ensures |r| == n
  {
    seq(n, k => Cell(mem, (a + k) % AddressSpace))
  }

  /** Byte `k` of a sequential read is the cell `k` places on, modulo the address space. */
  lemma FetchCell(mem: map<nat, byte>, a: nat, n: nat, k: nat)
    requires k < n
    ensures Fetch(mem, a, n)[k] == Cell(mem, (a + k) % AddressSpace)
  {
  }

  /** `I2c::write(addr, bytes)` on the simulator. */
  function BusWrite(s: BusState, addr: bv8, bytes: seq<byte>): (r: Response)
    ensures r.state.log == s.log + [WriteTx(addr, bytes)]
    ensures r.reply == NextReply(s.script) && r.state.script == Rest(s.script)
    ensures r.state.mem == if r.reply.Ok? then Program(s.mem, bytes) else s.mem
  {
    var reply := NextReply(s.script);
    Response(
      BusState(Rest(s.script), s.log + [WriteTx(addr, bytes)],
               if reply.Ok? then Program(s.mem, bytes) else s.mem),
      reply, [])
  }

  /** `I2c::write_read(addr, bytes, buffer)` on the simulator, for a buffer of `n` bytes. */
  function BusWriteRead(s: BusState, addr: bv8, bytes: seq<byte>, n: nat): (r: Response)
    ensures r.state.log == s.log + [WriteReadTx(addr, bytes, n)]
    ensures r.reply == NextReply(s.script) && r.state.script == Rest(s.script)
    ensures r.state.mem == s.mem
    ensures r.reply.Ok? ==> r.read == Fetch(s.mem, StartAddress(bytes), n)
  {
    var reply := NextReply(s.script);
    Response(
      BusState(Rest(s.script), s.log + [WriteReadTx(addr, bytes, n)], s.mem),
      reply, if reply.Ok? then Fetch(s.mem, StartAddress(bytes), n) else [])
  }

  /** The I2C bus capability, backed by the scripted simulator. */
  class I2cBus {
    var script: seq<Outcome>
    var log: seq<Tx>
    var mem: map<nat, byte>

    constructor (script: seq<Outcome>, mem: map<nat, byte>)
      ensures State() == BusState(script, [], mem)
    {
      this.script := script;
      this.log := [];
      this.mem := mem;
    }

    function State(): BusState
      reads this
    {
      BusState(script, log, mem)
    }

    method Write(addr: bv8, bytes: seq<byte>) returns (reply: Outcome)
      modifies this
      ensures State() == BusWrite(old(State()), addr, bytes).state
      ensures reply == BusWrite(old(State()), addr, bytes).reply
    {
      var r := BusWrite(State(), addr, bytes);
      script, log, mem := r.state.script, r.state.log, r.state.mem;
      reply := r.reply;
    }

    /**
     * Writes `bytes`, then fills `buffer[lo..hi]` from the device. On an error
     * the simulator leaves the buffer as it was.
     */
    method WriteRead(addr: bv8, bytes: seq<byte>, buffer: array<byte>, lo: nat, hi: nat)
      returns (reply: Outcome)
      requires lo <= hi <= buffer.Length
      modifies this, buffer
      ensures State() == BusWriteRead(old(State()), addr, bytes, hi - lo).state
      ensures reply == BusWriteRead(old(State()), addr, bytes, hi - lo).reply
      ensures buffer[..] == old(buffer[..lo])
                            + (if reply.Ok? then BusWriteRead(old(State()), addr, bytes, hi - lo).read
                               else old(buffer[lo..hi]))
                            + old(buffer[hi..])
    {
      var r := BusWriteRead(State(), addr, bytes, hi - lo);
      script, log, mem := r.state.script, r.state.log, r.state.mem;
      reply := r.reply;
      if reply.Ok? {
        forall k | lo <= k < hi {
          buffer[k] := r.read[k - lo];
        }
        assert buffer[..] == old(buffer[..lo]) + r.read + old(buffer[hi..]);
      }
    }
  }

  /** One `delay_ms(ms)` call, made after the first `after` transactions of the bus. */
  datatype Wait = Wait(ms: nat, after: nat)

  /** The delay capability: records every `delay_ms` call and where it falls among the bus transactions. */
  class Delay {
    /** The bus whose transactions the waits are placed among. */
    const bus: I2cBus
    var log: seq<Wait>

    constructor (bus: I2cBus)
      ensures this.bus == bus && log == []
    {
      this.bus := bus;
      log := [];
    }

    method DelayMs(ms: nat)
      modifies this
      ensures log == old(log) + [Wait(ms, |bus.log|)]
    {
      log := log + [Wait(ms, |bus.log|)];
    }
  }
}
