/**
 * Page chunking of an arbitrary (address, length) request into sub-requests
 * that never cross a 32-byte EEPROM page.
 *
 * The write and read loops of the driver walk a cursor `i` from `address` to
 * `address + len`; at each step they handle the bytes from `i` up to the next
 * page boundary or the end of the request, whichever comes first, and then
 * advance the cursor to that page boundary. `ChunksFrom` is that walk as a
 * function: the loops are proved to issue exactly these chunks, in order.
 */
module Paging {

  /** Size of one M24C64 write page. */
  const PageSize: nat := 32

  /** One sub-request: `len` bytes starting at device address `start`. */
  datatype Chunk = Chunk(start: nat, len: nat)

  function Min(a: nat, b: nat): nat {
    if a <= b then a else b
  }

  /** How far the cursor `i` advances: up to the next page boundary. */
  function Advance(i: nat): nat {
    PageSize - i % PageSize
  }

  /** The chunks the cursor loop emits while it walks from `i` to `end`. */
  function ChunksFrom(i: nat, end: nat): seq<Chunk>
    decreases end - i
  {
    if i < end then
      [Chunk(i, Min(Advance(i), end - i))] + ChunksFrom(i + Advance(i), end)
    else
      []
  }

  /** The chunks of a request of `len` bytes at `address`. */
  function Chunks(address: nat, len: nat): seq<Chunk> {
    ChunksFrom(address, address + len)
  }

  /** `[a, b)` as a sequence of addresses (empty when `b <= a`). */
  function Range(a: nat, b: nat): (r: seq<nat>)
    ensures |r| == if a <= b then b - a else 0
    ensures forall k :: 0 <= k < |r| ==> r[k] == a + k
  {
    seq(if a <= b then b - a else 0, k requires k >= 0 => a + k)
  }

  /** The addresses that a list of chunks covers, in the order it visits them. */
  function Covered(cs: seq<Chunk>): seq<nat> {
    if cs == [] then [] else Range(cs[0].start, cs[0].start + cs[0].len) + Covered(cs[1..])
  }

  /** Every chunk is non-empty, at most one page long and inside a single page. */
  ghost predicate PageBounded(cs: seq<Chunk>) {
    forall k :: 0 <= k < |cs| ==>
      1 <= cs[k].len <= PageSize && cs[k].start % PageSize + cs[k].len <= PageSize
  }

  /** Every chunk lies inside `[lo, hi)`. */
  ghost predicate Inside(cs: seq<Chunk>, lo: nat, hi: nat) {
    forall k :: 0 <= k < |cs| ==> lo <= cs[k].start && cs[k].start + cs[k].len <= hi
  }

  /** Each chunk starts exactly where the previous one ends. */
  ghost predicate Contiguous(cs: seq<Chunk>) {
    forall k :: 0 <= k < |cs| - 1 ==> cs[k].start + cs[k].len == cs[k + 1].start
  }

  /** Each chunk ends no later than any chunk after it starts. */
  ghost predicate Ascending(cs: seq<Chunk>) {
    forall j, k :: 0 <= j < k < |cs| ==> cs[j].start + cs[j].len <= cs[k].start
  }

  lemma RangeSplit(a: nat, b: nat, c: nat)
    requires a <= b <= c
    ensures Range(a, b) + Range(b, c) == Range(a, c)
  {
  }

  /** Every chunk of the walk from `i` to `end` is page bounded and lies in `[i, end)`. */
  lemma {:induction false} ChunksFromShape(i: nat, end: nat)
    ensures PageBounded(ChunksFrom(i, end))
    ensures Inside(ChunksFrom(i, end), i, end)
    decreases end - i
  {
    if i < end {
      ChunksFromShape(i + Advance(i), end);
    }
  }

  /**
   * The walk from `i` is empty exactly when `i >= end`; otherwise it starts at
   * `i`, its last chunk ends at `end` and consecutive chunks are adjacent.
   */
  lemma {:induction false} ChunksFromContiguous(i: nat, end: nat)
    ensures ChunksFrom(i, end) == [] <==> end <= i
    ensures ChunksFrom(i, end) != [] ==> ChunksFrom(i, end)[0].start == i
    ensures ChunksFrom(i, end) != [] ==>
      ChunksFrom(i, end)[|ChunksFrom(i, end)| - 1].start + ChunksFrom(i, end)[|ChunksFrom(i, end)| - 1].len == end
    ensures Contiguous(ChunksFrom(i, end))
    decreases end - i
  {
    if i < end {
      var next := i + Advance(i);
      ChunksFromContiguous(next, end);
      var cs := ChunksFrom(i, end);
      var rest := ChunksFrom(next, end);
      assert cs == [Chunk(i, Min(Advance(i), end - i))] + rest;
      if rest != [] {
        assert next < end;
        assert cs[0].start + cs[0].len == next == rest[0].start;
      }
      forall k | 0 <= k < |cs| - 1
        ensures cs[k].start + cs[k].len == cs[k + 1].start
      {
        if k > 0 {
          assert cs[k] == rest[k - 1] && cs[k + 1] == rest[k];
        }
      }
    }
  }

  /** The walk visits its chunks in strictly ascending, non-overlapping order. */
  lemma {:induction false} ChunksFromAscending(i: nat, end: nat)
    ensures Ascending(ChunksFrom(i, end))
    decreases end - i
  {
    if i < end {
      var next := i + Advance(i);
      ChunksFromAscending(next, end);
      ChunksFromShape(next, end);
      var cs := ChunksFrom(i, end);
      var rest := ChunksFrom(next, end);
      assert cs == [Chunk(i, Min(Advance(i), end - i))] + rest;
      forall j, k | 0 <= j < k < |cs|
        ensures cs[j].start + cs[j].len <= cs[k].start
      {
        assert cs[k] == rest[k - 1];
        if j > 0 {
          assert cs[j] == rest[j - 1];
        }
      }
    }
  }

  /** The walk from `i` covers exactly the addresses `[i, end)`, each once, in order. */
  lemma {:induction false} ChunksFromCover(i: nat, end: nat)
    ensures Covered(ChunksFrom(i, end)) == Range(i, end)
    decreases end - i
  {
    if i < end {
      var next := i + Advance(i);
      ChunksFromCover(next, end);
      var c := Chunk(i, Min(Advance(i), end - i));
      assert ChunksFrom(i, end) == [c] + ChunksFrom(next, end);
      assert ([c] + ChunksFrom(next, end))[1..] == ChunksFrom(next, end);
      if next < end {
        RangeSplit(i, next, end);
      } else {
        assert Range(next, end) == [];
      }
    }
  }

  /**
   * The chunks of a request cover exactly `[address, address + len)` with no gap
   * or overlap, in ascending order, and each fits in one page and in the
   * 32-byte payload area of the command buffer.
   */
  lemma ChunksCorrect(address: nat, len: nat)
    ensures Covered(Chunks(address, len)) == Range(address, address + len)
    ensures PageBounded(Chunks(address, len))
    ensures Inside(Chunks(address, len), address, address + len)
    ensures Contiguous(Chunks(address, len))
    ensures Ascending(Chunks(address, len))
  {
    ChunksFromCover(address, address + len);
    ChunksFromShape(address, address + len);
    ChunksFromContiguous(address, address + len);
    ChunksFromAscending(address, address + len);
  }

  /** A request that stays inside one page is one chunk; an empty request is none. */
  lemma SinglePage(address: nat, len: nat)
    requires address % PageSize + len <= PageSize
    ensures len == 0 ==> Chunks(address, len) == []
    ensures len > 0 ==> Chunks(address, len) == [Chunk(address, len)]
  {
    if len > 0 {
      assert ChunksFrom(address + Advance(address), address + len) == [];
    }
  }

  /** A request of 10 bytes at address 30 is split into (30, 2) and (32, 8). */
  lemma BoundarySplitExample()
    ensures Chunks(30, 10) == [Chunk(30, 2), Chunk(32, 8)]
  {
    assert ChunksFrom(40, 40) == [];
    assert ChunksFrom(32, 40) == [Chunk(32, 8)];
  }

  /** The number of chunks is the number of pages the request touches. */
  lemma {:induction false} ChunkCount(i: nat, end: nat)
    ensures |ChunksFrom(i, end)| == if i < end then (end - 1) / PageSize - i / PageSize + 1 else 0
    decreases end - i
  {
    if i < end {
      var next := i + Advance(i);
      ChunkCount(next, end);
      assert next / PageSize == i / PageSize + 1;
    }
  }
}
