/**
 * What the driver's protocol guarantees, stated over the `Protocol` functions
 * (which the methods of `Driver.M24C64` are proved to follow exactly):
 * the retry bound of a chunk write, which bus transactions the write and read
 * loops issue and in what order, abort on the first failing chunk, what the
 * device memory holds afterwards, and the write-then-read round trip.
 */
module Properties {
  import opened Paging
  import opened Hal
  import opened Protocol

  // -----------------------------------------------------------------------
  // Scripts and traces
  // -----------------------------------------------------------------------

  /** The number of errors at the head of a script, before its first `Ok` or its end. */
  function LeadingErrors(script: seq<Outcome>): (n: nat)
    ensures n <= |script|
    ensures forall k :: 0 <= k < n ==> script[k].Err?
    ensures n < |script| ==> script[n].Ok?
  {
    if script == [] || script[0].Ok? then 0 else 1 + LeadingErrors(script[1..])
  }

  /** The script after `t` bus calls. */
  function Drop(script: seq<Outcome>, t: nat): seq<Outcome> {
    if t <= |script| then script[t..] else []
  }

  /** `n` copies of one transaction. */
  function Repeat(n: nat, tx: Tx): (r: seq<Tx>)
    ensures |r| == n && forall k :: 0 <= k < n ==> r[k] == tx
  {
    seq(n, _ => tx)
  }

  /** `n` waits of 1 ms, wait `k` made after the first `from + k` bus transactions. */
  function Pauses(from: nat, n: nat): (r: seq<Wait>)
    ensures |r| == n && forall k :: 0 <= k < n ==> r[k] == Wait(1, from + k)
  {
    seq(n, k requires 0 <= k => Wait(1, from + k))
  }

  // -----------------------------------------------------------------------
  // The retry bound of write_raw
  // -----------------------------------------------------------------------

  /** The number of writes the retry loop entered with counter `i` makes on `script`. */
  function Tries(script: seq<Outcome>, i: nat): (t: nat)
    requires i <= MaxRetries
    ensures 1 <= t <= MaxRetries - i + 1
  {
    Min(LeadingErrors(script), MaxRetries - i) + 1
  }

  /**
   * The retry loop entered with counter `i` writes the same frame `Tries`
   * times, that is once more than the number of leading errors, but at most
   * `MaxRetries - i + 1` times, and waits 1 ms between two consecutive
   * writes: wait `k` comes right after write `k + 1`, so before write `k + 2`.
   */
  lemma {:induction false} AttemptTrace(bus: BusState, addr: bv8, frame: seq<byte>, i: nat)
    requires i <= MaxRetries
    ensures var r := Attempt(bus, addr, frame, i);
      var tries := Tries(bus.script, i);
      r.bus.log == bus.log + Repeat(tries, WriteTx(addr, frame)) && r.waits == Pauses(|bus.log| + 1, tries - 1)
    decreases MaxRetries - i
  {
    hide Program, Attempt, LeadingErrors;
    var s := bus.script;
    var resp := BusWrite(bus, addr, frame);
    var tx := WriteTx(addr, frame);
    AttemptStep(bus, addr, frame, i);
    LeadingErrorsStep(s);
    if resp.reply.Ok? || i == MaxRetries {
      assert Repeat(1, tx) == [tx];
    } else {
      AttemptTrace(resp.state, addr, frame, i + 1);
      assert [tx] + Repeat(Tries(s, i) - 1, tx) == Repeat(Tries(s, i), tx);
      assert [Wait(1, |bus.log| + 1)] + Pauses(|bus.log| + 2, Tries(s, i) - 2) == Pauses(|bus.log| + 1, Tries(s, i) - 1);
    }
  }

  /** The retry loop consumes one scripted reply per write it makes. */
  lemma {:induction false} AttemptScript(bus: BusState, addr: bv8, frame: seq<byte>, i: nat)
    requires i <= MaxRetries
    ensures Attempt(bus, addr, frame, i).bus.script == Drop(bus.script, Tries(bus.script, i))
    decreases MaxRetries - i
  {
    hide Program, Attempt, LeadingErrors, Tries, Drop;
    var s := bus.script;
    var resp := BusWrite(bus, addr, frame);
    AttemptStep(bus, addr, frame, i);
    TriesStep(s, i);
    if resp.reply.Err? && i < MaxRetries {
      AttemptScript(resp.state, addr, frame, i + 1);
      DropRest(s, Tries(s, i) - 1);
    } else {
      DropRest(s, 0);
      DropNone(Rest(s));
    }
  }

  /** The number of writes of the retry loop, one reply at a time. */
  lemma TriesStep(s: seq<Outcome>, i: nat)
    requires i <= MaxRetries
    ensures NextReply(s).Ok? || i == MaxRetries ==> Tries(s, i) == 1
    ensures NextReply(s).Err? && i < MaxRetries ==> Tries(s, i) == 1 + Tries(Rest(s), i + 1)
  {
    LeadingErrorsStep(s);
  }

  /** The leading errors of a script, one reply at a time. */
  lemma LeadingErrorsStep(s: seq<Outcome>)
    ensures NextReply(s).Ok? ==> LeadingErrors(s) == 0
    ensures NextReply(s).Err? ==> s != [] && s[0] == NextReply(s) && LeadingErrors(s) == 1 + LeadingErrors(s[1..])
    ensures Rest(s) == Drop(s, 1)
  {
  }

  /**
   * The retry loop entered with counter `i` succeeds exactly when an `Ok`
   * comes within its `MaxRetries - i + 1` writes, and otherwise returns the
   * error of the last one. Only an acknowledged write programs the memory.
   */
  lemma {:induction false} AttemptResult(bus: BusState, addr: bv8, frame: seq<byte>, i: nat)
    requires i <= MaxRetries
    ensures var r := Attempt(bus, addr, frame, i);
      var ok := LeadingErrors(bus.script) <= MaxRetries - i;
      && r.outcome == (if ok then Ok else bus.script[MaxRetries - i])
      && r.bus.mem == (if ok then Program(bus.mem, frame) else bus.mem)
    decreases MaxRetries - i
  {
    hide Program, Attempt, LeadingErrors;
    var s := bus.script;
    var resp := BusWrite(bus, addr, frame);
    AttemptStep(bus, addr, frame, i);
    LeadingErrorsStep(s);
    if resp.reply.Err? && i < MaxRetries {
      AttemptResult(resp.state, addr, frame, i + 1);
      if LeadingErrors(s) > MaxRetries - i {
        assert s[1..][MaxRetries - i - 1] == s[MaxRetries - i];
      }
    }
  }

  /**
   * `write_raw` sends the frame (header, then payload) to `e_addr | 0x50`
   * between 1 and 11 times, with one `delay_ms(1)` between consecutive
   * attempts; it stops at the first acknowledged write; it fails only when
   * the first 11 replies are all errors, and then returns the 11th error.
   * Whatever the error kind, it is retried.
   */
  lemma WriteRawRetries(bus: BusState, eAddr: bv8, address: nat, bytes: seq<byte>)
    ensures var st := WriteRaw(bus, eAddr, address, bytes);
      var sent := |st.bus.log| - |bus.log|;
      && |bus.log| < |st.bus.log| <= |bus.log| + MaxRetries + 1
      && st.bus.log == bus.log + Repeat(sent, WriteTx(BusAddress(eAddr), Header(address) + bytes))
      && st.waits == Pauses(|bus.log| + 1, sent - 1)
      && st.bus.script == Drop(bus.script, sent)
      && (st.outcome.Ok? <==> LeadingErrors(bus.script) <= MaxRetries)
      && (st.outcome.Ok? ==> sent == LeadingErrors(bus.script) + 1
                             && st.bus.mem == Program(bus.mem, Frame(address, bytes)))
      && (st.outcome.Err? ==> sent == MaxRetries + 1 && st.outcome == bus.script[MaxRetries]
                              && st.bus.mem == bus.mem)
  {
    AttemptTrace(bus, BusAddress(eAddr), Frame(address, bytes), 0);
    AttemptScript(bus, BusAddress(eAddr), Frame(address, bytes), 0);
    AttemptResult(bus, BusAddress(eAddr), Frame(address, bytes), 0);
  }

  /** A device that stays busy for 9 attempts: the 10th write succeeds after 9 delays. */
  lemma NineFailuresThenOk(mem: map<nat, byte>, eAddr: bv8, address: nat, bytes: seq<byte>)
    ensures var script := seq(9, _ => Err(NoAcknowledge)) + [Ok];
      var st := WriteRaw(BusState(script, [], mem), eAddr, address, bytes);
      st.outcome == Ok && st.waits == Pauses(1, 9) && |st.bus.log| == 10
  {
    var script := seq(9, _ => Err(NoAcknowledge)) + [Ok];
    LeadingErrorsOf(script, 9);
    WriteRawRetries(BusState(script, [], mem), eAddr, address, bytes);
  }

  /** Ten failures are still masked: the code makes one first attempt and then 10 retries. */
  lemma TenFailuresThenOk(mem: map<nat, byte>, eAddr: bv8, address: nat, bytes: seq<byte>)
    ensures var script := seq(10, _ => Err(NoAcknowledge)) + [Ok];
      var st := WriteRaw(BusState(script, [], mem), eAddr, address, bytes);
      st.outcome == Ok && st.waits == Pauses(1, 10) && |st.bus.log| == 11
  {
    var script := seq(10, _ => Err(NoAcknowledge)) + [Ok];
    LeadingErrorsOf(script, 10);
    WriteRawRetries(BusState(script, [], mem), eAddr, address, bytes);
  }

  /** Eleven failures: the 11th error is returned and no 12th write is issued. */
  lemma ElevenFailures(mem: map<nat, byte>, eAddr: bv8, address: nat, bytes: seq<byte>)
    ensures var script := seq(11, _ => Err(ArbitrationLoss)) + [Ok];
      var st := WriteRaw(BusState(script, [], mem), eAddr, address, bytes);
      st.outcome == Err(ArbitrationLoss) && st.waits == Pauses(1, 10) && |st.bus.log| == 11
      && st.bus.script == [Ok] && st.bus.mem == mem
  {
    var script := seq(11, _ => Err(ArbitrationLoss)) + [Ok];
    LeadingErrorsOf(script, 11);
    WriteRawRetries(BusState(script, [], mem), eAddr, address, bytes);
    assert script[11..] == [Ok];
    assert script[MaxRetries] == Err(ArbitrationLoss);
  }

  /** A script of `n` errors, then an `Ok` or nothing, has `n` leading errors. */
  lemma LeadingErrorsOf(script: seq<Outcome>, n: nat)
    requires n <= |script| && (n < |script| ==> script[n].Ok?) && forall k :: 0 <= k < n ==> script[k].Err?
    ensures LeadingErrors(script) == n
  {
  }

  // -----------------------------------------------------------------------
  // The write loop: which frames go out, and in what order
  // -----------------------------------------------------------------------

  /** How often each chunk of a write is sent, and whether the write fails. */
  datatype Retries = Retries(counts: seq<nat>, failed: bool)

  /**
   * The writes per chunk that the replies `script` cause for a write of `n`
   * chunks: each chunk is sent `Tries(script, 0)` times (its leading errors
   * plus one, at most 11), and the first chunk whose replies hold more than
   * `MaxRetries` errors ends the write.
   */
  function ChunkRetries(script: seq<Outcome>, n: nat): (r: Retries)
    ensures |r.counts| <= n
    ensures r.failed ==> 0 < |r.counts| && r.counts[|r.counts| - 1] == MaxRetries + 1
    ensures !r.failed ==> |r.counts| == n
    ensures forall k :: 0 <= k < |r.counts| ==> 1 <= r.counts[k] <= MaxRetries + 1
    ensures n == 0 ==> r == Retries([], false)
    decreases n
  {
    if n == 0 then Retries([], false)
    else if LeadingErrors(script) > MaxRetries then Retries([Tries(script, 0)], true)
    else
      var rest := ChunkRetries(Drop(script, Tries(script, 0)), n - 1);
      Retries([Tries(script, 0)] + rest.counts, rest.failed)
  }

  /** Dropping twice is dropping the sum. */
  lemma DropDrop(script: seq<Outcome>, a: nat, b: nat)
    ensures Drop(Drop(script, a), b) == Drop(script, a + b)
  {
    if a <= |script| && b <= |script| - a {
      assert script[a..][b..] == script[a + b..];
    }
  }

  /** One chunk of `ChunkRetries`: the first chunk's count, then the rest unless it failed. */
  lemma ChunkRetriesStep(script: seq<Outcome>, n: nat)
    requires n > 0
    ensures var t := Tries(script, 0);
      ChunkRetries(script, n)
      == if LeadingErrors(script) > MaxRetries then Retries([t], true)
         else Retries([t] + ChunkRetries(Drop(script, t), n - 1).counts, ChunkRetries(Drop(script, t), n - 1).failed)
  {
  }

  /**
   * `write_raw` sends its frame `Tries(script, 0)` times, consuming that many
   * replies, and fails exactly when more than `MaxRetries` errors lead the script.
   */
  lemma WriteRawSent(bus: BusState, eAddr: bv8, address: nat, bytes: seq<byte>)
    ensures var st := WriteRaw(bus, eAddr, address, bytes);
      && |st.bus.log| - |bus.log| == Tries(bus.script, 0)
      && st.bus.script == Drop(bus.script, Tries(bus.script, 0))
      && (st.outcome.Err? <==> LeadingErrors(bus.script) > MaxRetries)
      && (st.outcome.Err? ==> MaxRetries < |bus.script| && st.outcome == bus.script[MaxRetries])
  {
    WriteRawRetries(bus, eAddr, address, bytes);
  }

  /** Reply `k` after `a` calls is reply `a + k` of the script. */
  lemma DropIndex(script: seq<Outcome>, a: nat, k: nat)
    requires k < |Drop(script, a)|
    ensures a + k < |script| && Drop(script, a)[k] == script[a + k]
  {
  }

  /** The bytes of a request at `address` that chunk `c` carries. */
  function Part(data: seq<byte>, address: nat, c: Chunk): (p: seq<byte>)
    requires address <= c.start && c.start + c.len <= address + |data|
    ensures |p| == c.len
  {
    data[c.start - address..c.start - address + c.len]
  }

  /** The write transactions for chunks `cs` of a request: one frame per chunk, in order. */
  ghost function WriteFrames(addr: bv8, address: nat, data: seq<byte>, cs: seq<Chunk>): (r: seq<Tx>)
    requires Inside(cs, address, address + |data|)
    ensures |r| == |cs|
  {
    if cs == [] then []
    else
      assert Inside(cs[1..], address, address + |data|) by {
        forall k | 0 <= k < |cs| - 1 ensures cs[1..][k] == cs[k + 1] { }
      }
      [WriteTx(addr, Frame(cs[0].start, Part(data, address, cs[0])))]
      + WriteFrames(addr, address, data, cs[1..])
  }

  /** The first `|counts|` transactions of `txs`, transaction `k` repeated `counts[k]` times. */
  function Repeated(txs: seq<Tx>, counts: seq<nat>): seq<Tx>
    requires |counts| <= |txs|
  {
    if counts == [] then [] else Repeat(counts[0], txs[0]) + Repeated(txs[1..], counts[1..])
  }

  /**
   * The delays of a write that sends chunk `k` `counts[k]` times from log
   * position `base` on: a 1 ms wait right after every write of a chunk but
   * its last, and none between two chunks.
   */
  function RetryWaits(base: nat, counts: seq<nat>): seq<Wait>
    decreases |counts|
  {
    if counts == [] then []
    else Pauses(base + 1, if counts[0] > 0 then counts[0] - 1 else 0) + RetryWaits(base + counts[0], counts[1..])
  }

  /** The delays of a write, one chunk at a time. */
  lemma RetryWaitsStep(base: nat, sent: nat, more: seq<nat>)
    requires 1 <= sent
    ensures RetryWaits(base, []) == []
    ensures RetryWaits(base, [sent] + more) == Pauses(base + 1, sent - 1) + RetryWaits(base + sent, more)
  {
    hide Pauses;
    var counts := [sent] + more;
    assert counts[0] == sent && counts[1..] == more;
  }

  /** The frames of an unfinished loop: the frame of the chunk at the cursor, then the rest. */
  lemma FramesHead(addr: bv8, address: nat, data: seq<byte>, i: nat)
    requires address <= i < address + |data|
    ensures var end := address + |data|;
      && Inside(ChunksFrom(i, end), address, end)
      && Inside(ChunksFrom(i + Advance(i), end), address, end)
      && |ChunksFrom(i, end)| == 1 + |ChunksFrom(i + Advance(i), end)|
      && var frames := WriteFrames(addr, address, data, ChunksFrom(i, end));
         && frames[0] == WriteTx(addr, Header(i) + data[i - address..ChunkEnd(address, |data|, i)])
         && frames[1..] == WriteFrames(addr, address, data, ChunksFrom(i + Advance(i), end))
  {
    var end := address + |data|;
    ChunksFromHead(address, data, i);
    ChunksFromShape(i + Advance(i), end);
    Widen(ChunksFrom(i + Advance(i), end), i + Advance(i), address, end);
    var cs := ChunksFrom(i, end);
    assert cs[1..] == ChunksFrom(i + Advance(i), end);
  }

  /** Logs that grow by `sent` copies of the first transaction, then by the rest of the pattern. */
  lemma RepeatedStep(l0: seq<Tx>, l1: seq<Tx>, l2: seq<Tx>, txs: seq<Tx>, sent: nat, more: seq<nat>)
    requires |more| < |txs|
    requires l1 == l0 + Repeat(sent, txs[0])
    requires l2 == l1 + Repeated(txs[1..], more)
    ensures l2 == l0 + Repeated(txs, [sent] + more)
  {
    var counts := [sent] + more;
    assert counts[0] == sent && counts[1..] == more;
    assert Repeated(txs, counts) == Repeat(sent, txs[0]) + Repeated(txs[1..], more);
  }

  /** The chunk an unfinished cursor loop handles next, and the rest of its walk. */
  lemma ChunksFromHead(address: nat, data: seq<byte>, i: nat)
    requires address <= i < address + |data|
    ensures var cs := ChunksFrom(i, address + |data|);
      && cs == [Chunk(i, ChunkEnd(address, |data|, i) - (i - address))] + ChunksFrom(i + Advance(i), address + |data|)
      && Inside(cs, address, address + |data|)
      && Part(data, address, cs[0]) == data[i - address..ChunkEnd(address, |data|, i)]
  {
    var end := address + |data|;
    var n := ChunkEnd(address, |data|, i) - (i - address);
    assert n == Min(Advance(i), end - i);
    assert ChunksFrom(i, end) == [Chunk(i, n)] + ChunksFrom(i + Advance(i), end);
    ChunksFromShape(i, end);
    Widen(ChunksFrom(i, end), i, address, end);
  }

  /** A chunk list inside `[i, end)` is inside any wider range. */
  lemma Widen(cs: seq<Chunk>, i: nat, lo: nat, end: nat)
    requires Inside(cs, i, end) && lo <= i
    ensures Inside(cs, lo, end)
  {
  }

  /**
   * From cursor `i` on, the write loop sends the frames of the remaining
   * chunks in order, the frame of chunk `k` `counts[k]` times (1 to 11), and
   * delays once between two writes of the same frame. It reaches every chunk
   * when it succeeds; when it fails, the last chunk reached was written 11
   * times and no chunk after it was attempted.
   */
  lemma {:induction false} WriteFromTrace(bus: BusState, eAddr: bv8, address: nat, data: seq<byte>, i: nat)
    returns (counts: seq<nat>)
    requires address <= i
    ensures Inside(ChunksFrom(i, address + |data|), address, address + |data|)
    ensures var cs := ChunksFrom(i, address + |data|);
      var st := WriteFrom(bus, eAddr, address, data, i);
      && |counts| <= |cs|
      && (forall k :: 0 <= k < |counts| ==> 1 <= counts[k] <= MaxRetries + 1)
      && st.bus.log == bus.log + Repeated(WriteFrames(BusAddress(eAddr), address, data, cs), counts)
      && |st.waits| + |counts| == |st.bus.log| - |bus.log|
      && (st.outcome.Ok? ==> |counts| == |cs|)
      && (st.outcome.Err? ==> |counts| > 0 && counts[|counts| - 1] == MaxRetries + 1)
      && counts == ChunkRetries(bus.script, |cs|).counts
      && (st.outcome.Err? <==> ChunkRetries(bus.script, |cs|).failed)
    decreases address + |data| - i
  {
    hide WriteRaw, Attempt, Program, Header, LeadingErrors, PageBounded, WriteFrames, Inside, Tries, ChunkRetries;
    var end := address + |data|;
    ChunksFromShape(i, end);
    Widen(ChunksFrom(i, end), i, address, end);
    if i < end {
      var bytes := data[i - address..ChunkEnd(address, |data|, i)];
      var frames := WriteFrames(BusAddress(eAddr), address, data, ChunksFrom(i, end));
      FramesHead(BusAddress(eAddr), address, data, i);
      WriteFromStep(bus, eAddr, address, data, i);
      var s := WriteRaw(bus, eAddr, i, bytes);
      WriteRawRetries(bus, eAddr, i, bytes);
      var sent := |s.bus.log| - |bus.log|;
      var st := WriteFrom(bus, eAddr, address, data, i);
      assert |s.waits| == sent - 1;
      WriteRawSent(bus, eAddr, i, bytes);
      ChunkRetriesStep(bus.script, |ChunksFrom(i, end)|);
      if s.outcome.Err? {
        assert st == s;
        counts := [sent];
        RepeatedStep(bus.log, s.bus.log, s.bus.log, frames, sent, []);
      } else {
        var more := WriteFromTrace(s.bus, eAddr, address, data, i + Advance(i));
        counts := [sent] + more;
        var st' := WriteFrom(s.bus, eAddr, address, data, i + Advance(i));
        assert st.bus == st'.bus && st.outcome == st'.outcome && st.waits == s.waits + st'.waits;
        assert |st'.waits| + |more| == |st'.bus.log| - |s.bus.log|;
        RepeatedStep(bus.log, s.bus.log, st'.bus.log, frames, sent, more);
      }
    } else {
      counts := [];
    }
  }

  /**
   * From cursor `i` on, the write loop waits 1 ms right after every write
   * that it repeats, and at no other point: never between two chunks and
   * never after its last write.
   */
  lemma {:induction false} WriteFromWaits(bus: BusState, eAddr: bv8, address: nat, data: seq<byte>, i: nat)
    requires address <= i
    ensures var cr := ChunkRetries(bus.script, |ChunksFrom(i, address + |data|)|);
      WriteFrom(bus, eAddr, address, data, i).waits == RetryWaits(|bus.log|, cr.counts)
    decreases address + |data| - i
  {
    hide WriteRaw, Attempt, Program, Header, LeadingErrors, Tries, ChunkRetries, RetryWaits, Pauses, Drop;
    var end := address + |data|;
    if i < end {
      var bytes := data[i - address..ChunkEnd(address, |data|, i)];
      ChunksFromHead(address, data, i);
      WriteFromStep(bus, eAddr, address, data, i);
      var s := WriteRaw(bus, eAddr, i, bytes);
      WriteRawRetries(bus, eAddr, i, bytes);
      WriteRawSent(bus, eAddr, i, bytes);
      var sent := Tries(bus.script, 0);
      var n := |ChunksFrom(i, end)|;
      ChunkRetriesStep(bus.script, n);
      assert s.waits == Pauses(|bus.log| + 1, sent - 1);
      if s.outcome.Err? {
        RetryWaitsStep(|bus.log|, sent, []);
        RetryWaitsStep(|bus.log| + sent, 1, []);
        assert [sent] + [] == [sent];
        assert ChunkRetries(bus.script, n).counts == [sent];
        assert WriteFrom(bus, eAddr, address, data, i).waits == RetryWaits(|bus.log|, [sent]);
      } else {
        var next := i + Advance(i);
        var rest := WriteFrom(s.bus, eAddr, address, data, next);
        WriteFromWaits(s.bus, eAddr, address, data, next);
        assert |ChunksFrom(next, end)| == n - 1;
        var more := ChunkRetries(Drop(bus.script, sent), n - 1).counts;
        assert rest.waits == RetryWaits(|bus.log| + sent, more);
        assert ChunkRetries(bus.script, n).counts == [sent] + more;
        RetryWaitsStep(|bus.log|, sent, more);
        assert WriteFrom(bus, eAddr, address, data, i).waits == s.waits + rest.waits;
        assert WriteFrom(bus, eAddr, address, data, i).waits == RetryWaits(|bus.log|, [sent] + more);
      }
    } else {
      WriteFromDone(bus, eAddr, address, data, i);
      RetryWaitsStep(|bus.log|, 1, []);
      assert ChunksFrom(i, end) == [];
    }
  }

  /**
   * From cursor `i` on, the write loop consumes one reply per bus write, and
   * when it fails, its result is the reply to its last write.
   */
  lemma {:induction false} WriteFromReplies(bus: BusState, eAddr: bv8, address: nat, data: seq<byte>, i: nat)
    requires address <= i
    ensures var st := WriteFrom(bus, eAddr, address, data, i);
      var sent := |st.bus.log| - |bus.log|;
      && st.bus.script == Drop(bus.script, sent)
      && (st.outcome.Err? ==> 0 < sent <= |bus.script| && st.outcome == bus.script[sent - 1])
    decreases address + |data| - i
  {
    hide WriteRaw, Attempt, Program, Header, LeadingErrors, ChunksFrom, Drop;
    if i < address + |data| {
      var bytes := data[i - address..ChunkEnd(address, |data|, i)];
      WriteFromStep(bus, eAddr, address, data, i);
      var s := WriteRaw(bus, eAddr, i, bytes);
      WriteRawSent(bus, eAddr, i, bytes);
      var sent := |s.bus.log| - |bus.log|;
      if s.outcome.Ok? {
        var next := i + Advance(i);
        WriteFromReplies(s.bus, eAddr, address, data, next);
        var st' := WriteFrom(s.bus, eAddr, address, data, next);
        var sent' := |st'.bus.log| - |s.bus.log|;
        DropDrop(bus.script, sent, sent');
        if st'.outcome.Err? {
          DropIndex(bus.script, sent, sent' - 1);
        }
      }
    } else {
      WriteFromDone(bus, eAddr, address, data, i);
      DropNone(bus.script);
    }
  }

  /**
   * `write` sends one frame per chunk of the request, in ascending order, to
   * `e_addr | 0x50`: chunk `k` is sent `counts[k]` times, between 1 and 11, and
   * a 1 ms wait follows each write that is repeated, never one that ends a
   * chunk, so the delays number the writes minus the chunks reached. It fails only after
   * 11 writes of one chunk and then attempts no later chunk. So it makes at
   * most 11 writes and 10 delays per chunk.
   */
  lemma WriteTrace(bus: BusState, eAddr: bv8, address: nat, data: seq<byte>) returns (counts: seq<nat>)
    ensures Inside(Chunks(address, |data|), address, address + |data|)
    ensures var cs := Chunks(address, |data|);
      var st := Write(bus, eAddr, address, data);
      && |counts| <= |cs|
      && (forall k :: 0 <= k < |counts| ==> 1 <= counts[k] <= MaxRetries + 1)
      && st.bus.log == bus.log + Repeated(WriteFrames(BusAddress(eAddr), address, data, cs), counts)
      && |st.waits| + |counts| == |st.bus.log| - |bus.log|
      && st.waits == RetryWaits(|bus.log|, counts)
      && (st.outcome.Ok? ==> |counts| == |cs|)
      && (st.outcome.Err? ==> |counts| > 0 && counts[|counts| - 1] == MaxRetries + 1)
      && counts == ChunkRetries(bus.script, |cs|).counts
      && (st.outcome.Err? <==> ChunkRetries(bus.script, |cs|).failed)
      && st.bus.script == Drop(bus.script, |st.bus.log| - |bus.log|)
      && (st.outcome.Err? ==> 0 < |st.bus.log| - |bus.log| <= |bus.script|
                              && st.outcome == bus.script[|st.bus.log| - |bus.log| - 1])
  {
    hide WriteRaw, Attempt, Program, Header, LeadingErrors, PageBounded, WriteFrames, Inside, Tries,
      ChunkRetries, Drop, Repeated, ChunksFrom, WriteFrom;
    counts := WriteFromTrace(bus, eAddr, address, data, address);
    WriteFromReplies(bus, eAddr, address, data, address);
    WriteFromWaits(bus, eAddr, address, data, address);
  }

  /**
   * On an always-acknowledging bus, `write` succeeds without a delay and sends
   * each chunk's frame exactly once, in order.
   */
  lemma {:induction false} AlwaysAckWriteFrom(bus: BusState, eAddr: bv8, address: nat, data: seq<byte>, i: nat)
    requires bus.script == [] && address <= i
    ensures Inside(ChunksFrom(i, address + |data|), address, address + |data|)
    ensures var st := WriteFrom(bus, eAddr, address, data, i);
      && st.outcome == Ok && st.waits == [] && st.bus.script == []
      && st.bus.log == bus.log + WriteFrames(BusAddress(eAddr), address, data, ChunksFrom(i, address + |data|))
    decreases address + |data| - i
  {
    hide WriteRaw, Attempt, Program, Header, LeadingErrors, PageBounded, WriteFrames, Inside, Pauses, WriteFrom,
      Tries, Repeat;
    var end := address + |data|;
    ChunksFromShape(i, end);
    Widen(ChunksFrom(i, end), i, address, end);
    if i < end {
      var bytes := data[i - address..ChunkEnd(address, |data|, i)];
      var frames := WriteFrames(BusAddress(eAddr), address, data, ChunksFrom(i, end));
      FramesHead(BusAddress(eAddr), address, data, i);
      WriteFromStep(bus, eAddr, address, data, i);
      var s := WriteRaw(bus, eAddr, i, bytes);
      WriteRawRetries(bus, eAddr, i, bytes);
      assert LeadingErrors([]) == 0;
      assert s.bus.log == bus.log + [frames[0]] && s.waits == [] && s.bus.script == [];
      var st' := WriteFrom(s.bus, eAddr, address, data, i + Advance(i));
      AlwaysAckWriteFrom(s.bus, eAddr, address, data, i + Advance(i));
      assert WriteFrom(bus, eAddr, address, data, i) == st';
      assert frames == [frames[0]] + frames[1..];
      assert st'.bus.log == bus.log + frames;
    } else {
      WriteFromDone(bus, eAddr, address, data, i);
    }
  }

  lemma AlwaysAckWrite(bus: BusState, eAddr: bv8, address: nat, data: seq<byte>)
    requires bus.script == []
    ensures Inside(Chunks(address, |data|), address, address + |data|)
    ensures var st := Write(bus, eAddr, address, data);
      && st.outcome == Ok && st.waits == [] && st.bus.script == []
      && st.bus.log == bus.log + WriteFrames(BusAddress(eAddr), address, data, Chunks(address, |data|))
  {
    AlwaysAckWriteFrom(bus, eAddr, address, data, address);
  }

  // -----------------------------------------------------------------------
  // What the device memory holds after a write
  // -----------------------------------------------------------------------

  /** Programming a payload that stays inside one page sets exactly its own cells. */
  lemma {:induction false} ProgramInPage(mem: map<nat, byte>, a: nat, payload: seq<byte>, c: nat)
    requires a % PageSize + |payload| <= PageSize
    ensures Cell(ProgramPage(mem, a, payload), c) == if a <= c < a + |payload| then payload[c - a] else Cell(mem, c)
    decreases |payload|
  {
    if payload != [] {
      var m1 := mem[a := payload[0]];
      if |payload| > 1 {
        assert NextInPage(a) == a + 1;
        ProgramInPage(m1, a + 1, payload[1..], c);
      } else {
        assert payload[1..] == [];
      }
    }
  }

  /** An acknowledged frame programs its payload from the address in its header. */
  lemma FrameProgram(mem: map<nat, byte>, address: nat, bytes: seq<byte>)
    ensures Program(mem, Frame(address, bytes)) == ProgramPage(mem, address % AddressSpace, bytes)
  {
    var f := Frame(address, bytes);
    var h := Header(address);
    assert f[0] == h[0] && f[1] == h[1];
    assert StartAddress(f) == StartAddress(h);
  }

  /** A write loop whose first chunk meets more than `MaxRetries` errors fails at the chunk at its cursor. */
  lemma WriteFailsHere(script: seq<Outcome>, address: nat, data: seq<byte>, i: nat)
    requires address <= i < address + |data| && LeadingErrors(script) > MaxRetries
    ensures var cs := ChunksFrom(i, address + |data|);
      var cr := ChunkRetries(script, |cs|);
      cr.failed && cs[|cr.counts| - 1].start == i
  {
    ChunksFromHead(address, data, i);
  }

  /**
   * A write loop whose first chunk succeeds fails, if at all, at the chunk
   * where the loop from the next cursor on fails.
   */
  lemma WriteFailsLater(script: seq<Outcome>, address: nat, data: seq<byte>, i: nat, done: nat)
    requires address <= i < address + |data| && LeadingErrors(script) <= MaxRetries
    requires var rest := ChunksFrom(i + Advance(i), address + |data|);
      var cr := ChunkRetries(Drop(script, Tries(script, 0)), |rest|);
      cr.failed && done == rest[|cr.counts| - 1].start
    ensures var cs := ChunksFrom(i, address + |data|);
      var cr := ChunkRetries(script, |cs|);
      cr.failed && done == cs[|cr.counts| - 1].start
  {
    ChunksFromHead(address, data, i);
    var cs := ChunksFrom(i, address + |data|);
    ChunkRetriesStep(script, |cs|);
    assert cs[1..] == ChunksFrom(i + Advance(i), address + |data|);
  }

  /**
   * From cursor `i` on, the write loop programs the cells `[i, done)` with the
   * corresponding bytes of `data` and no other cell. It commits every chunk
   * when it succeeds; when it fails, `done` is where the failing chunk starts,
   * and the chunks before it stay committed.
   */
  lemma {:induction false} WriteFromMemory(bus: BusState, eAddr: bv8, address: nat, data: seq<byte>, i: nat)
    returns (done: nat)
    requires address <= i <= address + |data| <= AddressSpace
    ensures i <= done <= address + |data|
    ensures var st := WriteFrom(bus, eAddr, address, data, i);
      && (forall c: nat :: Cell(st.bus.mem, c) == if i <= c < done then data[c - address] else Cell(bus.mem, c))
      && (st.outcome.Ok? ==> done == address + |data|)
      && (st.outcome.Err? ==> done < address + |data| && (done == i || done % PageSize == 0))
      && (st.outcome.Err? ==>
            var cs := ChunksFrom(i, address + |data|);
            var cr := ChunkRetries(bus.script, |cs|);
            cr.failed && done == cs[|cr.counts| - 1].start)
    decreases address + |data| - i
  {
    hide WriteRaw, Attempt, Program, Header, LeadingErrors, ProgramPage, Frame, Repeat, Tries, ChunkRetries,
      WriteFrom, ChunksFrom, Drop;
    var end := address + |data|;
    if i == end {
      WriteFromDone(bus, eAddr, address, data, i);
      done := i;
      return;
    }
    var hi := ChunkEnd(address, |data|, i);
    var bytes := data[i - address..hi];
    var next := i + Advance(i);
    WriteFromStep(bus, eAddr, address, data, i);
    var s := WriteRaw(bus, eAddr, i, bytes);
    WriteRawRetries(bus, eAddr, i, bytes);
    WriteRawSent(bus, eAddr, i, bytes);
    if s.outcome.Err? {
      done := i;
      WriteFailsHere(bus.script, address, data, i);
      return;
    }
    FrameProgram(bus.mem, i, bytes);
    assert i % AddressSpace == i;
    forall c: nat
      ensures Cell(s.bus.mem, c) == if i <= c < hi + address then data[c - address] else Cell(bus.mem, c)
    {
      ProgramInPage(bus.mem, i, bytes, c);
    }
    if next < end {
      assert hi + address == next;
      done := WriteFromMemory(s.bus, eAddr, address, data, next);
      if WriteFrom(s.bus, eAddr, address, data, next).outcome.Err? {
        WriteFailsLater(bus.script, address, data, i, done);
      }
    } else {
      assert hi == |data|;
      WriteFromDone(s.bus, eAddr, address, data, next);
      done := end;
    }
  }

  /**
   * `write` programs exactly the cells `[address, done)` with the leading
   * bytes of `data`: all of them when it succeeds; when it fails, those of the
   * chunks before the failing one, which starts at `done` (no roll-back).
   */
  lemma WriteMemory(bus: BusState, eAddr: bv8, address: nat, data: seq<byte>) returns (done: nat)
    requires address + |data| <= AddressSpace
    ensures address <= done <= address + |data|
    ensures var st := Write(bus, eAddr, address, data);
      && (forall c: nat :: Cell(st.bus.mem, c) == if address <= c < done then data[c - address] else Cell(bus.mem, c))
      && (st.outcome.Ok? ==> done == address + |data|)
      && (st.outcome.Err? ==> done < address + |data| && (done == address || done % PageSize == 0))
      && (st.outcome.Err? ==>
            var cs := Chunks(address, |data|);
            var cr := ChunkRetries(bus.script, |cs|);
            cr.failed && done == cs[|cr.counts| - 1].start)
  {
    done := WriteFromMemory(bus, eAddr, address, data, address);
  }

  // -----------------------------------------------------------------------
  // The read loop
  // -----------------------------------------------------------------------

  /** `((a mod m) + k) mod m == (a + k) mod m` for the 16-bit address space. */
  lemma AddressShift(a: nat, k: nat)
    ensures (a % AddressSpace + k) % AddressSpace == (a + k) % AddressSpace
  {
    var q := a / AddressSpace;
    assert a == q * AddressSpace + a % AddressSpace;
    assert a + k == q * AddressSpace + (a % AddressSpace + k);
  }

  /**
   * `read_raw` makes exactly one write_read, to `e_addr | 0x50`, carrying only
   * the 2-byte header and asking for `|dest|` bytes; it is never retried and
   * never changes the memory. Its result is that of the bus call; on success
   * the destination holds the consecutive cells from the address on (modulo
   * 2^16), and on failure it keeps its content.
   */
  lemma ReadRawEffect(bus: BusState, eAddr: bv8, address: nat, dest: seq<byte>)
    ensures var r := ReadRaw(bus, eAddr, address, dest);
      && r.bus.log == bus.log + [WriteReadTx(BusAddress(eAddr), Header(address), |dest|)]
      && r.bus.script == Rest(bus.script) == Drop(bus.script, 1) && r.bus.mem == bus.mem
      && r.outcome == NextReply(bus.script)
  {
  }

  /** What `read_raw` puts in its destination: the addressed cells on success, nothing on error. */
  lemma ReadRawData(bus: BusState, eAddr: bv8, address: nat, dest: seq<byte>)
    ensures var r := ReadRaw(bus, eAddr, address, dest);
      forall k :: 0 <= k < |dest| ==>
        r.data[k] == if r.outcome.Ok? then Cell(bus.mem, (address + k) % AddressSpace) else dest[k]
  {
    var r := ReadRaw(bus, eAddr, address, dest);
    if r.outcome.Ok? {
      forall k | 0 <= k < |dest|
        ensures r.data[k] == Cell(bus.mem, (address + k) % AddressSpace)
      {
        FetchCell(bus.mem, address % AddressSpace, |dest|, k);
        AddressShift(address, k);
      }
    }
  }

  /** The write_read transactions for chunks `cs`: the header of each chunk and its length. */
  function ReadTxs(addr: bv8, cs: seq<Chunk>): (r: seq<Tx>)
    ensures |r| == |cs|
  {
    if cs == [] then [] else [WriteReadTx(addr, Header(cs[0].start), cs[0].len)] + ReadTxs(addr, cs[1..])
  }

  /** The transactions of the read loop from cursor `i`: the chunk at `i`, then the rest. */
  lemma ReadTxsHead(addr: bv8, address: nat, data: seq<byte>, i: nat)
    requires address <= i < address + |data|
    ensures var end := address + |data|;
      ReadTxs(addr, ChunksFrom(i, end))
      == [WriteReadTx(addr, Header(i), ChunkEnd(address, |data|, i) - (i - address))]
         + ReadTxs(addr, ChunksFrom(i + Advance(i), end))
  {
    ChunksFromHead(address, data, i);
  }

  /** The number of `Ok` replies at the head of a script, before its first error or its end. */
  function LeadingOks(script: seq<Outcome>): (n: nat)
    ensures n <= |script|
    ensures forall k :: 0 <= k < n ==> script[k].Ok?
    ensures n < |script| ==> script[n].Err?
  {
    if script == [] || script[0].Err? then 0 else 1 + LeadingOks(script[1..])
  }

  /** A read of `n` chunks fails when an error comes among the first `n` replies. */
  predicate ReadFails(script: seq<Outcome>, n: nat) {
    LeadingOks(script) < |script| && LeadingOks(script) < n
  }

  /** The number of write_read calls a read of `n` chunks makes: up to the first error. */
  function ReadCalls(script: seq<Outcome>, n: nat): (k: nat)
    ensures k <= n
  {
    if ReadFails(script, n) then LeadingOks(script) + 1 else n
  }

  /** The leading `Ok` replies of a script, one reply at a time. */
  lemma LeadingOksStep(s: seq<Outcome>, n: nat)
    requires n > 0
    ensures NextReply(s).Err? ==> s != [] && s[0] == NextReply(s) && LeadingOks(s) == 0 && ReadFails(s, n) && ReadCalls(s, n) == 1
    ensures NextReply(s).Ok? && s != [] ==> LeadingOks(s) == 1 + LeadingOks(Rest(s))
    ensures NextReply(s).Ok? ==> ReadCalls(s, n) == 1 + ReadCalls(Rest(s), n - 1)
                                 && (ReadFails(s, n) <==> ReadFails(Rest(s), n - 1))
                                 && (ReadFails(s, n) ==> s[LeadingOks(s)] == Rest(s)[LeadingOks(Rest(s))])
  {
    if s != [] && s[0].Ok? {
      assert LeadingOks(s) == 1 + LeadingOks(s[1..]);
    }
  }

  /** The log after one more transaction of `txs` once the first `more` of the rest are in. */
  lemma TakeStep(l0: seq<Tx>, l1: seq<Tx>, l2: seq<Tx>, txs: seq<Tx>, more: nat)
    requires 0 < |txs| && more < |txs|
    requires l1 == l0 + [txs[0]] && l2 == l1 + txs[1..][..more]
    ensures l2 == l0 + txs[..1 + more]
  {
    assert txs[..1 + more] == [txs[0]] + txs[1..][..more];
  }

  lemma DropNone(script: seq<Outcome>)
    ensures Drop(script, 0) == script
  {
  }

  /** Dropping from the rest of a script is dropping one more from the script. */
  lemma DropRest(script: seq<Outcome>, more: nat)
    ensures Drop(Rest(script), more) == Drop(script, 1 + more)
  {
    if script != [] && more <= |script| - 1 {
      assert script[1..][more..] == script[1 + more..];
    }
  }

  /**
   * From cursor `i` on, the read loop issues the write_read of the remaining
   * chunks in order, each once, up to and including the first one that fails,
   * and leaves the memory as it was.
   */
  lemma {:induction false} ReadFromTrace(bus: BusState, eAddr: bv8, address: nat, data: seq<byte>, i: nat)
    requires address <= i
    ensures var cs := ChunksFrom(i, address + |data|);
      var r := ReadFrom(bus, eAddr, address, data, i);
      var k := ReadCalls(bus.script, |cs|);
      && r.bus.log == bus.log + ReadTxs(BusAddress(eAddr), cs)[..k]
      && r.bus.script == Drop(bus.script, k) && r.bus.mem == bus.mem
    decreases address + |data| - i
  {
    hide ReadRaw, Header, Splice, PageBounded, Inside, BusWriteRead, Fetch, Drop, ReadTxs, ReadFrom, LeadingOks, ReadFails, ChunksFrom;
    var end := address + |data|;
    if i < end {
      var lo, hi := i - address, ChunkEnd(address, |data|, i);
      ChunksFromHead(address, data, i);
      var cs := ChunksFrom(i, end);
      var rest := ChunksFrom(i + Advance(i), end);
      var txs := ReadTxs(BusAddress(eAddr), cs);
      ReadTxsHead(BusAddress(eAddr), address, data, i);
      assert |cs| == 1 + |rest|;
      assert txs[0] == WriteReadTx(BusAddress(eAddr), Header(i), hi - lo) && txs[1..] == ReadTxs(BusAddress(eAddr), rest);
      ReadFromStep(bus, eAddr, address, data, i);
      var s := ReadRaw(bus, eAddr, i, data[lo..hi]);
      ReadRawEffect(bus, eAddr, i, data[lo..hi]);
      LeadingOksStep(bus.script, |cs|);
      if s.outcome.Err? {
        assert ReadCalls(bus.script, |cs|) == 1;
        assert txs[..1] == [txs[0]];
        DropRest(bus.script, 0);
      } else {
        var data' := Splice(data, lo, hi, s.data);
        var r := ReadFrom(s.bus, eAddr, address, data', i + Advance(i));
        ReadFromTrace(s.bus, eAddr, address, data', i + Advance(i));
        var more := ReadCalls(Rest(bus.script), |rest|);
        assert ReadCalls(bus.script, |cs|) == 1 + more;
        TakeStep(bus.log, s.bus.log, r.bus.log, txs, more);
        DropRest(bus.script, more);
      }
    } else {
      ReadFromDone(bus, eAddr, address, data, i);
      DropNone(bus.script);
    }
  }

  /**
   * From cursor `i` on, the read loop succeeds exactly when none of the
   * replies to its remaining chunks is an error, and otherwise returns the
   * first error.
   */
  lemma {:induction false} ReadFromOutcome(bus: BusState, eAddr: bv8, address: nat, data: seq<byte>, i: nat)
    requires address <= i
    ensures var n := |ChunksFrom(i, address + |data|)|;
      ReadFrom(bus, eAddr, address, data, i).outcome
      == if ReadFails(bus.script, n) then bus.script[LeadingOks(bus.script)] else Ok
    decreases address + |data| - i
  {
    hide ReadRaw, Header, Splice, PageBounded, Inside, BusWriteRead, Fetch, Drop, ReadFrom, ChunksFrom;
    var end := address + |data|;
    if i < end {
      var lo, hi := i - address, ChunkEnd(address, |data|, i);
      ChunksFromHead(address, data, i);
      ReadFromStep(bus, eAddr, address, data, i);
      var s := ReadRaw(bus, eAddr, i, data[lo..hi]);
      ReadRawEffect(bus, eAddr, i, data[lo..hi]);
      LeadingOksStep(bus.script, |ChunksFrom(i, end)|);
      if s.outcome.Ok? {
        ReadFromOutcome(s.bus, eAddr, address, Splice(data, lo, hi, s.data), i + Advance(i));
      }
    } else {
      ReadFromDone(bus, eAddr, address, data, i);
    }
  }

  /** One turn of the read loop fills the chunk's part of the destination, and only on success. */
  lemma ReadChunkData(bus: BusState, eAddr: bv8, address: nat, data: seq<byte>, i: nat)
    requires address <= i < address + |data|
    ensures var lo, hi := i - address, ChunkEnd(address, |data|, i);
      var s := ReadRaw(bus, eAddr, i, data[lo..hi]);
      forall p :: 0 <= p < |data| ==>
        Splice(data, lo, hi, s.data)[p]
        == if lo <= p < hi && s.outcome.Ok? then Cell(bus.mem, (address + p) % AddressSpace) else data[p]
  {
    hide ReadRaw, Splice;
    var lo, hi := i - address, ChunkEnd(address, |data|, i);
    var s := ReadRaw(bus, eAddr, i, data[lo..hi]);
    ReadRawData(bus, eAddr, i, data[lo..hi]);
    forall p | 0 <= p < |data|
      ensures Splice(data, lo, hi, s.data)[p]
              == if lo <= p < hi && s.outcome.Ok? then Cell(bus.mem, (address + p) % AddressSpace) else data[p]
    {
      SpliceAt(data, lo, hi, s.data, p);
      if lo <= p < hi {
        assert i + (p - lo) == address + p;
      }
    }
  }

  /** A read loop whose first reply is an error fails at the chunk at its cursor. */
  lemma ReadFailsHere(script: seq<Outcome>, address: nat, data: seq<byte>, i: nat)
    requires address <= i < address + |data| && NextReply(script).Err?
    ensures var cs := ChunksFrom(i, address + |data|);
      ReadFails(script, |cs|) && cs[LeadingOks(script)].start == i
  {
    ChunksFromHead(address, data, i);
    LeadingOksStep(script, |ChunksFrom(i, address + |data|)|);
  }

  /**
   * A read loop whose first reply is `Ok` fails, if at all, at the chunk
   * where the loop from the next cursor on fails.
   */
  lemma ReadFailsLater(script: seq<Outcome>, address: nat, data: seq<byte>, i: nat, at: nat)
    requires address <= i < address + |data| && NextReply(script).Ok?
    requires var rest := ChunksFrom(i + Advance(i), address + |data|);
      ReadFails(Rest(script), |rest|) && at == rest[LeadingOks(Rest(script))].start
    ensures var cs := ChunksFrom(i, address + |data|);
      ReadFails(script, |cs|) && at == cs[LeadingOks(script)].start
  {
    ChunksFromHead(address, data, i);
    var cs := ChunksFrom(i, address + |data|);
    LeadingOksStep(script, |cs|);
    assert cs[1..] == ChunksFrom(i + Advance(i), address + |data|);
  }

  /**
   * From cursor `i` on, the read loop fills positions `[i - address, stop)`
   * of the destination with the consecutive cells from `address` on (modulo
   * 2^16) and leaves every other position as it was. It fills everything when
   * it succeeds; when it fails, `stop` is where the failing chunk's part
   * starts, and that part and the ones after it keep their content.
   */
  lemma {:induction false} ReadFromData(bus: BusState, eAddr: bv8, address: nat, data: seq<byte>, i: nat)
    returns (stop: nat)
    requires address <= i <= address + |data|
    ensures i - address <= stop <= |data|
    ensures var r := ReadFrom(bus, eAddr, address, data, i);
      && (forall p :: 0 <= p < |data| ==>
            r.data[p] == if i - address <= p < stop then Cell(bus.mem, (address + p) % AddressSpace) else data[p])
      && (r.outcome.Ok? ==> stop == |data|)
      && (r.outcome.Err? ==> stop < |data| && (stop == i - address || (address + stop) % PageSize == 0))
      && (r.outcome.Err? ==>
            var cs := ChunksFrom(i, address + |data|);
            ReadFails(bus.script, |cs|) && stop == cs[LeadingOks(bus.script)].start - address)
    decreases address + |data| - i
  {
    hide ReadRaw, Header, Splice, PageBounded, Inside, BusWriteRead, Fetch, Drop, ReadFrom, ChunksFrom;
    var end := address + |data|;
    if i == end {
      ReadFromDone(bus, eAddr, address, data, i);
      stop := |data|;
      return;
    }
    var lo, hi := i - address, ChunkEnd(address, |data|, i);
    var next := i + Advance(i);
    ReadFromStep(bus, eAddr, address, data, i);
    var s := ReadRaw(bus, eAddr, i, data[lo..hi]);
    ReadRawEffect(bus, eAddr, i, data[lo..hi]);
    ReadChunkData(bus, eAddr, address, data, i);
    var data' := Splice(data, lo, hi, s.data);
    if s.outcome.Err? {
      stop := lo;
      ReadFailsHere(bus.script, address, data, i);
    } else if next < end {
      assert hi == next - address && next % PageSize == 0;
      stop := ReadFromData(s.bus, eAddr, address, data', next);
      if ReadFrom(s.bus, eAddr, address, data', next).outcome.Err? {
        ReadFailsLater(bus.script, address, data, i, address + stop);
      }
    } else {
      assert hi == |data|;
      ReadFromDone(s.bus, eAddr, address, data', next);
      stop := |data|;
    }
  }

  /**
   * `read` issues the write_read of each chunk of the request once, in order,
   * up to and including the first that fails, and never changes the memory.
   * It succeeds exactly when none of those replies is an error, and otherwise
   * returns the first error: a read is not retried.
   */
  lemma ReadTrace(bus: BusState, eAddr: bv8, address: nat, data: seq<byte>)
    ensures var cs := Chunks(address, |data|);
      var r := Read(bus, eAddr, address, data);
      var k := ReadCalls(bus.script, |cs|);
      && r.bus.log == bus.log + ReadTxs(BusAddress(eAddr), cs)[..k]
      && r.bus.script == Drop(bus.script, k) && r.bus.mem == bus.mem
      && r.outcome == if ReadFails(bus.script, |cs|) then bus.script[LeadingOks(bus.script)] else Ok
  {
    ReadFromTrace(bus, eAddr, address, data, address);
    ReadFromOutcome(bus, eAddr, address, data, address);
  }

  /**
   * `read` fills positions `[0, stop)` of the destination with the bytes
   * stored from `address` on and leaves the others as they were: all of it on
   * success, which is then exactly a sequential read of the device; on failure
   * everything before the failing chunk.
   */
  lemma ReadData(bus: BusState, eAddr: bv8, address: nat, data: seq<byte>) returns (stop: nat)
    ensures stop <= |data|
    ensures var r := Read(bus, eAddr, address, data);
      && (forall p :: 0 <= p < |data| ==>
            r.data[p] == if p < stop then Cell(bus.mem, (address + p) % AddressSpace) else data[p])
      && (r.outcome.Ok? ==> stop == |data| && r.data == Fetch(bus.mem, address, |data|))
      && (r.outcome.Err? ==> stop < |data| && (stop == 0 || (address + stop) % PageSize == 0))
      && (r.outcome.Err? ==>
            var cs := Chunks(address, |data|);
            ReadFails(bus.script, |cs|) && stop == cs[LeadingOks(bus.script)].start - address)
  {
    stop := ReadFromData(bus, eAddr, address, data, address);
    var r := Read(bus, eAddr, address, data);
    if r.outcome.Ok? {
      forall p | 0 <= p < |data|
        ensures r.data[p] == Fetch(bus.mem, address, |data|)[p]
      {
        FetchCell(bus.mem, address, |data|, p);
      }
    }
  }

  /** Against an always-acknowledging device, `read` returns the stored bytes, one write_read per chunk. */
  lemma AlwaysAckRead(bus: BusState, eAddr: bv8, address: nat, data: seq<byte>)
    requires bus.script == []
    ensures var r := Read(bus, eAddr, address, data);
      && r.outcome == Ok && r.data == Fetch(bus.mem, address, |data|)
      && r.bus == bus.(log := bus.log + ReadTxs(BusAddress(eAddr), Chunks(address, |data|)))
  {
    ReadTrace(bus, eAddr, address, data);
    var _ := ReadData(bus, eAddr, address, data);
    var n := |Chunks(address, |data|)|;
    assert ReadCalls([], n) == n;
    assert ReadTxs(BusAddress(eAddr), Chunks(address, |data|))[..n] == ReadTxs(BusAddress(eAddr), Chunks(address, |data|));
  }

  // -----------------------------------------------------------------------
  // Round trip
  // -----------------------------------------------------------------------

  /**
   * Bytes written with `write` inside the address space are read back by
   * `read` of the same range: once the write succeeded and the memory is
   * still what it left, a successful read returns exactly those bytes.
   */
  lemma WriteThenRead(bus: BusState, later: BusState, eAddr: bv8, address: nat, data: seq<byte>, dest: seq<byte>)
    requires address + |data| <= AddressSpace && |dest| == |data|
    requires Write(bus, eAddr, address, data).outcome.Ok?
    requires later.mem == Write(bus, eAddr, address, data).bus.mem
    ensures Read(later, eAddr, address, dest).outcome.Ok? ==> Read(later, eAddr, address, dest).data == data
  {
    hide Write, Read, Fetch;
    var done := WriteMemory(bus, eAddr, address, data);
    var stop := ReadData(later, eAddr, address, dest);
    FetchWritten(later.mem, address, data);
  }

  /** A sequential read of cells that hold `data` returns `data`. */
  lemma FetchWritten(mem: map<nat, byte>, address: nat, data: seq<byte>)
    requires address + |data| <= AddressSpace
    requires forall c: nat :: address <= c < address + |data| ==> Cell(mem, c) == data[c - address]
    ensures Fetch(mem, address, |data|) == data
  {
    forall p | 0 <= p < |data|
      ensures Fetch(mem, address, |data|)[p] == data[p]
    {
      assert (address + p) % AddressSpace == address + p;
      assert Cell(mem, address + p) == data[address + p - address];
    }
  }

  /**
   * Four bytes written at 0x12 on an always-acknowledging device are read
   * back unchanged, and the write went out as one frame.
   */
  lemma RoundTripExample(mem: map<nat, byte>, eAddr: bv8)
    ensures var data: seq<byte> := [0x10, 0x20, 0x30, 0x40];
      var w := Write(BusState([], [], mem), eAddr, 0x12, data);
      var r := Read(w.bus, eAddr, 0x12, [0, 0, 0, 0]);
      && w.outcome == Ok && w.waits == [] && |w.bus.log| == 1
      && r.outcome == Ok && r.data == data
  {
    var data: seq<byte> := [0x10, 0x20, 0x30, 0x40];
    SinglePage(0x12, 4);
    AlwaysAckWrite(BusState([], [], mem), eAddr, 0x12, data);
    var w := Write(BusState([], [], mem), eAddr, 0x12, data);
    AlwaysAckRead(w.bus, eAddr, 0x12, [0, 0, 0, 0]);
    WriteThenRead(BusState([], [], mem), w.bus, eAddr, 0x12, data, [0, 0, 0, 0]);
  }

  /**
   * A 40-byte write at address 30 whose first chunk (30, 2) meets 11 errors
   * fails with the last of them; the chunks (32, 32) and (64, 6) are never
   * attempted and the memory is unchanged.
   */
  lemma AbortExample(mem: map<nat, byte>, eAddr: bv8, data: seq<byte>)
    requires |data| == 40
    ensures var bus := BusState(seq(11, _ => Err(NoAcknowledge)), [], mem);
      var st := Write(bus, eAddr, 30, data);
      && st.outcome == Err(NoAcknowledge) && st.waits == Pauses(1, 10)
      && st.bus.log == Repeat(11, WriteTx(BusAddress(eAddr), Header(30) + data[..2]))
      && st.bus.mem == mem
  {
    var bus := BusState(seq(11, _ => Err(NoAcknowledge)), [], mem);
    LeadingErrorsOf(bus.script, 11);
    WriteFromStep(bus, eAddr, 30, data, 30);
    assert ChunkEnd(30, 40, 30) == 2;
    WriteRawRetries(bus, eAddr, 30, data[0..2]);
  }

  /** An empty request does nothing and succeeds. */
  lemma EmptyRequest(bus: BusState, eAddr: bv8, address: nat)
    ensures Write(bus, eAddr, address, []) == Step(bus, [], Ok)
    ensures Read(bus, eAddr, address, []) == ReadStep(bus, Ok, [])
  {
  }

  /** The header of address 0x1234 is the bytes 0x12, 0x34. */
  lemma HeaderExample()
    ensures Header(0x1234) == [0x12, 0x34]
  {
  }
}
