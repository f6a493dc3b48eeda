/**
 * The M24C64 driver object: the I2C bus it owns, the chip address set by the
 * E pins, and the 34-byte command buffer reused by every transaction.
 *
 * The blocking methods (sync.rs) and the `async` methods (async_variant.rs)
 * have the same bodies: every `.await` is an ordinary sequential call, and
 * both kinds are proved to have the effects the `Protocol` functions give, so
 * for the same bus replies they produce the same bus transactions, the same
 * delays and the same results.
 */
module Driver {
  import opened Paging
  import opened Hal
  import opened Protocol

  /** Bound on the cursor arithmetic in `usize` on the 32-bit targets. */
  const UsizeLimit: nat := 0x1_0000_0000

  /** Neither `address + len` nor the final cursor step overflows a `usize`. */
  predicate NoOverflow(address: nat, len: nat) {
    address + len + PageSize <= UsizeLimit
  }

  class M24C64 {
    /** The I2C interface, owned by the driver. */
    const i2c: I2cBus
    /** The address set by the E pins; never changed after construction. */
    const eAddr: bv8
    /** The command buffer: header then payload. */
    const cmdBuf: array<byte>

    predicate Valid() {
      cmdBuf.Length == BufLen
    }

    /** `M24C64::new`: stores the bus and the chip address as given; zeroed buffer; no bus traffic. */
    constructor New(i2c: I2cBus, eAddr: bv8)
      ensures Valid()
      ensures this.i2c == i2c && this.eAddr == eAddr
      ensures fresh(cmdBuf) && cmdBuf[..] == seq(BufLen, _ => 0)
    {
      this.i2c := i2c;
      this.eAddr := eAddr;
      this.cmdBuf := new byte[BufLen](_ => 0);
    }

    /** `new_blocking`: the same as `new`. */
    static method NewBlocking(i2c: I2cBus, eAddr: bv8) returns (d: M24C64)
      ensures d.Valid()
      ensures d.i2c == i2c && d.eAddr == eAddr
      ensures fresh(d) && fresh(d.cmdBuf) && d.cmdBuf[..] == seq(BufLen, _ => 0)
    {
      d := new M24C64.New(i2c, eAddr);
    }

    /** Puts the big-endian address header into the first two bytes of the buffer. */
    method LoadHeader(address: nat)
      requires Valid()
      modifies cmdBuf
      ensures cmdBuf[..] == Header(address) + old(cmdBuf[..])[HeaderLen..]
    {
      cmdBuf[0] := ((address / 256) % 256) as byte;  // (address >> 8) as u8
      cmdBuf[1] := (address % 256) as byte;          // (address & 0xFF) as u8
    }

    /** Copies the header and the payload into the command buffer. */
    method LoadCommand(address: nat, bytes: seq<byte>)
      requires Valid() && |bytes| <= PageSize
      modifies cmdBuf
      ensures cmdBuf[..] == LoadFrame(old(cmdBuf[..]), address, bytes)
    {
      ghost var cmd0 := cmdBuf[..];
      LoadHeader(address);
      // copy_from_slice(bytes) into cmd_buf[2..bytes.len() + 2]
      for k := 0 to |bytes|
        invariant cmdBuf[..] == Header(address) + bytes[..k] + cmd0[k + HeaderLen..]
      {
        cmdBuf[k + HeaderLen] := bytes[k];
        assert bytes[..k + 1] == bytes[..k] + [bytes[k]];
      }
      assert bytes[..|bytes|] == bytes;
    }

    // ---------------------------------------------------------------------
    // Blocking variant (sync.rs)
    // ---------------------------------------------------------------------

    /**
     * The retry loop of `write_raw` on the first `n` bytes of the command
     * buffer: write them; after an error, delay 1 ms and retry while the
     * retry counter is below `MaxRetries`, else return that error.
     */
    method SendRetrying(n: nat, delay: Delay) returns (r: Outcome)
      requires Valid() && n <= BufLen && delay.bus == i2c
      modifies i2c, delay
      ensures var st := Attempt(old(i2c.State()), BusAddress(eAddr), cmdBuf[..n], 0);
        i2c.State() == st.bus && delay.log == old(delay.log) + st.waits && r == st.outcome
    {
      hide Program, Attempt;
      ghost var frame := cmdBuf[..n];
      ghost var whole := Attempt(i2c.State(), BusAddress(eAddr), frame, 0);
      ghost var log0 := delay.log;
      ghost var waited: seq<Wait> := [];
      var i := 0;
      while true
        invariant i <= MaxRetries
        invariant whole == Delayed(Attempt(i2c.State(), BusAddress(eAddr), frame, i), waited)
        invariant delay.log == log0 + waited
        decreases MaxRetries - i
      {
        AttemptStep(i2c.State(), BusAddress(eAddr), frame, i);
        var result := i2c.Write(eAddr | DeviceCode, cmdBuf[..n]);
        match result {
          case Ok => return Ok;
          case Err(e) =>
            if i >= MaxRetries {
              return Err(e);
            }
        }
        i := i + 1;
        delay.DelayMs(1);
        waited := waited + [Wait(1, |i2c.log|)];
      }
    }

    /** `write_raw_blocking`: write one page-bounded chunk, retrying on any bus error. */
    method WriteRawBlocking(address: nat, bytes: seq<byte>, delay: Delay) returns (r: Outcome)
      requires Valid() && |bytes| <= PageSize && delay.bus == i2c
      modifies cmdBuf, i2c, delay
      ensures cmdBuf[..] == LoadFrame(old(cmdBuf[..]), address, bytes)
      ensures var st := WriteRaw(old(i2c.State()), eAddr, address, bytes);
        i2c.State() == st.bus && delay.log == old(delay.log) + st.waits && r == st.outcome
    {
      LoadCommand(address, bytes);
      assert cmdBuf[..|bytes| + HeaderLen] == Frame(address, bytes);
      r := SendRetrying(|bytes| + HeaderLen, delay);
    }

    /** `read_raw_blocking`: one write_read of the header into `bytes[lo..hi]`. */
    method ReadRawBlocking(address: nat, bytes: array<byte>, lo: nat, hi: nat) returns (r: Outcome)
      requires Valid() && lo <= hi <= bytes.Length && bytes != cmdBuf
      modifies cmdBuf, i2c, bytes
      ensures cmdBuf[..] == Header(address) + old(cmdBuf[..])[HeaderLen..]
      ensures var st := ReadRaw(old(i2c.State()), eAddr, address, old(bytes[lo..hi]));
        i2c.State() == st.bus && r == st.outcome
        && bytes[..] == old(bytes[..lo]) + st.data + old(bytes[hi..])
    {
      LoadHeader(address);
      assert cmdBuf[..HeaderLen] == Header(address);
      r := i2c.WriteRead(eAddr | DeviceCode, cmdBuf[..HeaderLen], bytes, lo, hi);
    }

    /** `write_blocking`: write `data` at `address`, one page-bounded chunk at a time. */
    method WriteBlocking(address: nat, data: seq<byte>, delay: Delay) returns (r: Outcome)
      requires Valid() && NoOverflow(address, |data|) && delay.bus == i2c
      modifies cmdBuf, i2c, delay
      ensures var st := Write(old(i2c.State()), eAddr, address, data);
        i2c.State() == st.bus && delay.log == old(delay.log) + st.waits && r == st.outcome
    {
      // Each turn is reasoned about through the contract of the write_raw call alone.
      hide WriteRaw, WriteFrom;
      ghost var whole := Write(i2c.State(), eAddr, address, data);
      ghost var log0 := delay.log;
      ghost var waited: seq<Wait> := [];
      var i := address;
      while i < address + |data|
        invariant address <= i
        invariant whole == Delayed(WriteFrom(i2c.State(), eAddr, address, data, i), waited)
        invariant delay.log == log0 + waited
        decreases address + |data| - i
      {
        var pageOffset := i % PageSize;
        var hi := Min(i - address + (PageSize - pageOffset), |data|);
        ghost var bus := i2c.State();
        ghost var st := WriteRaw(bus, eAddr, i, data[i - address..hi]);
        assert hi == ChunkEnd(address, |data|, i);
        WriteFromStep(bus, eAddr, address, data, i);
        var res := WriteRawBlocking(i, data[i - address..hi], delay);
        if res.Err? {
          return res;
        }
        waited := waited + st.waits;
        i := i + (PageSize - pageOffset);
      }
      WriteFromDone(i2c.State(), eAddr, address, data, i);
      return Ok;
    }

    /** `read_blocking`: fill `data` from `address`, one page-bounded chunk at a time. */
    method ReadBlocking(address: nat, data: array<byte>) returns (r: Outcome)
      requires Valid() && data != cmdBuf && NoOverflow(address, data.Length)
      modifies cmdBuf, i2c, data
      ensures var st := Read(old(i2c.State()), eAddr, address, old(data[..]));
        i2c.State() == st.bus && data[..] == st.data && r == st.outcome
    {
      // Each turn is reasoned about through the contract of the read_raw call alone.
      hide ReadRaw, ReadFrom;
      ghost var whole := Read(i2c.State(), eAddr, address, data[..]);
      var len := data.Length;
      var i := address;
      while i < address + len
        invariant address <= i
        invariant whole == ReadFrom(i2c.State(), eAddr, address, data[..], i)
        decreases address + len - i
      {
        var pageOffset := i % PageSize;
        var lo, hi := i - address, Min(i - address + (PageSize - pageOffset), len);
        ghost var bus, dest := i2c.State(), data[..];
        ghost var st := ReadRaw(bus, eAddr, i, dest[lo..hi]);
        assert hi == ChunkEnd(address, len, i);
        ReadFromStep(bus, eAddr, address, dest, i);
        var res := ReadRawBlocking(i, data, lo, hi);
        assert data[..] == Splice(dest, lo, hi, st.data);
        if res.Err? {
          return res;
        }
        i := i + (PageSize - pageOffset);
      }
      ReadFromDone(i2c.State(), eAddr, address, data[..], i);
      return Ok;
    }

    // ---------------------------------------------------------------------
    // Async variant (async_variant.rs): the same steps, each `.await` a call
    // ---------------------------------------------------------------------

    /** `write_raw`: write one page-bounded chunk, retrying on any bus error. */
    method WriteRawAsync(address: nat, bytes: seq<byte>, delay: Delay) returns (r: Outcome)
      requires Valid() && |bytes| <= PageSize && delay.bus == i2c
      modifies cmdBuf, i2c, delay
      ensures cmdBuf[..] == LoadFrame(old(cmdBuf[..]), address, bytes)
      ensures var st := WriteRaw(old(i2c.State()), eAddr, address, bytes);
        i2c.State() == st.bus && delay.log == old(delay.log) + st.waits && r == st.outcome
    {
      LoadCommand(address, bytes);
      assert cmdBuf[..|bytes| + HeaderLen] == Frame(address, bytes);
      r := SendRetrying(|bytes| + HeaderLen, delay);
    }

    /** `read_raw`: one write_read of the header into `bytes[lo..hi]`. */
    method ReadRawAsync(address: nat, bytes: array<byte>, lo: nat, hi: nat) returns (r: Outcome)
      requires Valid() && lo <= hi <= bytes.Length && bytes != cmdBuf
      modifies cmdBuf, i2c, bytes
      ensures cmdBuf[..] == Header(address) + old(cmdBuf[..])[HeaderLen..]
      ensures var st := ReadRaw(old(i2c.State()), eAddr, address, old(bytes[lo..hi]));
        i2c.State() == st.bus && r == st.outcome
        && bytes[..] == old(bytes[..lo]) + st.data + old(bytes[hi..])
    {
      LoadHeader(address);
      assert cmdBuf[..HeaderLen] == Header(address);
      r := i2c.WriteRead(eAddr | DeviceCode, cmdBuf[..HeaderLen], bytes, lo, hi);
    }

    /** `write`: write `data` at `address`, one page-bounded chunk at a time. */
    method WriteAsync(address: nat, data: seq<byte>, delay: Delay) returns (r: Outcome)
      requires Valid() && NoOverflow(address, |data|) && delay.bus == i2c
      modifies cmdBuf, i2c, delay
      ensures var st := Write(old(i2c.State()), eAddr, address, data);
        i2c.State() == st.bus && delay.log == old(delay.log) + st.waits && r == st.outcome
    {
      // Each turn is reasoned about through the contract of the write_raw call alone.
      hide WriteRaw, WriteFrom;
      ghost var whole := Write(i2c.State(), eAddr, address, data);
      ghost var log0 := delay.log;
      ghost var waited: seq<Wait> := [];
      var i := address;
      while i < address + |data|
        invariant address <= i
        invariant whole == Delayed(WriteFrom(i2c.State(), eAddr, address, data, i), waited)
        invariant delay.log == log0 + waited
        decreases address + |data| - i
      {
        var pageOffset := i % PageSize;
        var hi := Min(i - address + (PageSize - pageOffset), |data|);
        ghost var bus := i2c.State();
        ghost var st := WriteRaw(bus, eAddr, i, data[i - address..hi]);
        assert hi == ChunkEnd(address, |data|, i);
        WriteFromStep(bus, eAddr, address, data, i);
        var res := WriteRawAsync(i, data[i - address..hi], delay);
        if res.Err? {
          return res;
        }
        waited := waited + st.waits;
        i := i + (PageSize - pageOffset);
      }
      WriteFromDone(i2c.State(), eAddr, address, data, i);
      return Ok;
    }

    /** `read`: fill `data` from `address`, one page-bounded chunk at a time. */
    method ReadAsync(address: nat, data: array<byte>) returns (r: Outcome)
      requires Valid() && data != cmdBuf && NoOverflow(address, data.Length)
      modifies cmdBuf, i2c, data
      ensures var st := Read(old(i2c.State()), eAddr, address, old(data[..]));
        i2c.State() == st.bus && data[..] == st.data && r == st.outcome
    {
      // Each turn is reasoned about through the contract of the read_raw call alone.
      hide ReadRaw, ReadFrom;
      ghost var whole := Read(i2c.State(), eAddr, address, data[..]);
      var len := data.Length;
      var i := address;
      while i < address + len
        invariant address <= i
        invariant whole == ReadFrom(i2c.State(), eAddr, address, data[..], i)
        decreases address + len - i
      {
        var pageOffset := i % PageSize;
        var lo, hi := i - address, Min(i - address + (PageSize - pageOffset), len);
        ghost var bus, dest := i2c.State(), data[..];
        ghost var st := ReadRaw(bus, eAddr, i, dest[lo..hi]);
        assert hi == ChunkEnd(address, len, i);
        ReadFromStep(bus, eAddr, address, dest, i);
        var res := ReadRawAsync(i, data, lo, hi);
        assert data[..] == Splice(dest, lo, hi, st.data);
        if res.Err? {
          return res;
        }
        i := i + (PageSize - pageOffset);
      }
      ReadFromDone(i2c.State(), eAddr, address, data[..], i);
      return Ok;
    }
  }
}
