/**
 * Whole-driver runs on the simulated bus: fresh bus, delay and driver
 * objects, then the driver's own methods. They connect the imperative
 * methods of `Driver.M24C64` to the properties proved of the protocol.
 */
module Scenarios {
  import opened Paging
  import opened Hal
  import opened Protocol
  import opened Driver
  import opened Properties

  /**
   * On an always-acknowledging device, `write_blocking` followed by
   * `read_blocking` of the same range returns the bytes written, with no
   * delay and one write frame per chunk.
   */
  method StoreAndLoad(mem: map<nat, byte>, eAddr: bv8, address: nat, data: seq<byte>)
    returns (w: Outcome, r: Outcome, back: seq<byte>, frames: nat, waits: seq<Wait>)
    requires address + |data| <= AddressSpace
    ensures w == Ok && r == Ok && back == data
    ensures frames == |Chunks(address, |data|)| && waits == []
  {
    var bus := new I2cBus([], mem);
    var delay := new Delay(bus);
    var eeprom := M24C64.NewBlocking(bus, eAddr);
    ghost var before := bus.State();
    AlwaysAckWrite(before, eAddr, address, data);
    w := eeprom.WriteBlocking(address, data, delay);
    frames := |bus.log|;
    waits := delay.log;
    ghost var written := bus.State();
    var buffer := new byte[|data|](_ => 0);
    AlwaysAckRead(written, eAddr, address, buffer[..]);
    WriteThenRead(before, written, eAddr, address, data, buffer[..]);
    r := eeprom.ReadBlocking(address, buffer);
    back := buffer[..];
  }

  /**
   * A device busy for three attempts: one byte is still written, after four
   * write frames, with a 1 ms delay after each of the three refused ones.
   */
  method BusyDevice(mem: map<nat, byte>, eAddr: bv8, address: nat, value: byte)
    returns (w: Outcome, frames: nat, waits: seq<Wait>, stored: byte)
    requires address < AddressSpace
    ensures w == Ok && frames == 4 && waits == [Wait(1, 1), Wait(1, 2), Wait(1, 3)] && stored == value
  {
    var script := [Err(NoAcknowledge), Err(NoAcknowledge), Err(NoAcknowledge)];
    var bus := new I2cBus(script, mem);
    var delay := new Delay(bus);
    var eeprom := M24C64.NewBlocking(bus, eAddr);
    ghost var before := bus.State();
    LeadingErrorsOf(script, 3);
    SinglePage(address, 1);
    WriteFromStep(before, eAddr, address, [value], address);
    WriteRawRetries(before, eAddr, address, [value]);
    var done := WriteMemory(before, eAddr, address, [value]);
    w := eeprom.WriteBlocking(address, [value], delay);
    frames := |bus.log|;
    waits := delay.log;
    stored := Cell(bus.mem, address);
  }

  /**
   * The blocking and the async `write`, run on two buses that give the same
   * replies, issue the same transactions, ask for the same delays, leave the
   * same memory and return the same result.
   */
  method WritesAgree(script: seq<Outcome>, mem: map<nat, byte>, eAddr: bv8, address: nat, data: seq<byte>)
    returns (w1: Outcome, w2: Outcome, bus1: BusState, bus2: BusState, waits1: seq<Wait>, waits2: seq<Wait>)
    requires NoOverflow(address, |data|)
    ensures w1 == w2 && bus1 == bus2 && waits1 == waits2
  {
    hide Write;
    var busA := new I2cBus(script, mem);
    var delayA := new Delay(busA);
    var blocking := M24C64.NewBlocking(busA, eAddr);
    w1 := blocking.WriteBlocking(address, data, delayA);
    bus1, waits1 := busA.State(), delayA.log;
    var busB := new I2cBus(script, mem);
    var delayB := new Delay(busB);
    var async := new M24C64.New(busB, eAddr);
    w2 := async.WriteAsync(address, data, delayB);
    bus2, waits2 := busB.State(), delayB.log;
  }

  /**
   * The blocking and the async `read`, run on two buses that give the same
   * replies, issue the same transactions, fill the destination the same way
   * and return the same result.
   */
  method ReadsAgree(script: seq<Outcome>, mem: map<nat, byte>, eAddr: bv8, address: nat, len: nat)
    returns (r1: Outcome, r2: Outcome, bus1: BusState, bus2: BusState, back1: seq<byte>, back2: seq<byte>)
    requires NoOverflow(address, len)
    ensures r1 == r2 && bus1 == bus2 && back1 == back2
  {
    hide Read;
    var busA := new I2cBus(script, mem);
    var blocking := M24C64.NewBlocking(busA, eAddr);
    var bufA := new byte[len](_ => 0);
    ghost var zeros := bufA[..];
    r1 := blocking.ReadBlocking(address, bufA);
    bus1, back1 := busA.State(), bufA[..];
    var busB := new I2cBus(script, mem);
    var async := new M24C64.New(busB, eAddr);
    var bufB := new byte[len](_ => 0);
    assert bufB[..] == zeros;
    r2 := async.ReadAsync(address, bufB);
    bus2, back2 := busB.State(), bufB[..];
  }
}
