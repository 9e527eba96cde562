/** The free-block ledger: one bit per block, packed eight to a byte, 1 meaning used. */
module FreeSpace {
  import opened Base

  datatype FreeSpaceManager = FreeSpaceManager(totalBlocks: u64, bitmap: seq<bv8>)

  /** The bitmap has exactly the bytes needed for `totalBlocks` bits. */
  predicate Valid(m: FreeSpaceManager)
  {
    |m.bitmap| == (m.totalBlocks + 7) / 8
  }

  /** Block `i` has a bit in the bitmap (possibly in the padding of the last byte). */
  predicate InMap(m: FreeSpaceManager, i: nat)
  {
    i / 8 < |m.bitmap|
  }

  /** The mask `1 << (i % 8)` selecting block `i` within its byte. */
  function Mask(i: nat): bv8
  {
    (1 as bv8) << (i % 8)
  }

  /** Two blocks sharing a byte have different masks; the mask of a block is never zero. */
  lemma MaskFacts(i: nat, j: nat)
    ensures Mask(i) != 0
    ensures i / 8 == j / 8 && i != j ==> Mask(i) & Mask(j) == 0
  {
    var a, b := i % 8, j % 8;
    if i / 8 == j / 8 && i != j {
      assert a != b;
    }
  }

  /** Setting one mask leaves the bits of a disjoint mask alone. */
  lemma ByteBits(b: bv8, x: bv8, y: bv8)
    ensures (b | x) & x == x
    ensures x & y == 0 ==> (b | x) & y == b & y
  {
  }

  /** `FreeSpaceManager(total)`: every byte zero. */
  function New(total: u64): (m: FreeSpaceManager)
    ensures Valid(m) && m.totalBlocks == total
    ensures forall i :: 0 <= i < total ==> InMap(m, i) && IsFree(m, i)
  {
    FreeSpaceManager(total, seq((total + 7) / 8, _ => 0))
  }

  /** `isFree(i)`: the block's bit is clear. */
  predicate IsFree(m: FreeSpaceManager, i: nat)
    requires InMap(m, i)
  {
    m.bitmap[i / 8] & Mask(i) == 0
  }

  /** `markUsed(i)`: set the block's bit. */
  function MarkUsed(m: FreeSpaceManager, i: nat): (r: FreeSpaceManager)
    requires InMap(m, i)
    ensures r.totalBlocks == m.totalBlocks && |r.bitmap| == |m.bitmap|
    ensures InMap(r, i) && !IsFree(r, i)
    ensures forall j :: InMap(m, j) && j != i ==> IsFree(r, j) == IsFree(m, j)
  {
    var r := m.(bitmap := m.bitmap[i / 8 := m.bitmap[i / 8] | Mask(i)]);
    MaskFacts(i, i);
    ByteBits(m.bitmap[i / 8], Mask(i), Mask(i));
    forall j: nat | InMap(m, j) && j != i ensures IsFree(r, j) == IsFree(m, j) {
      MaskFacts(i, j);
      ByteBits(m.bitmap[i / 8], Mask(i), Mask(j));
    }
    r
  }

  /** `markFree(i)`: clear the block's bit. */
  function MarkFree(m: FreeSpaceManager, i: nat): (r: FreeSpaceManager)
    requires InMap(m, i)
    ensures r.totalBlocks == m.totalBlocks && |r.bitmap| == |m.bitmap|
    ensures InMap(r, i) && IsFree(r, i)
    ensures forall j :: InMap(m, j) && j != i ==> IsFree(r, j) == IsFree(m, j)
  {
    var r := m.(bitmap := m.bitmap[i / 8 := Clear(m.bitmap[i / 8], Mask(i))]);
    ClearBits(m.bitmap[i / 8], Mask(i), Mask(i));
    forall j: nat | InMap(m, j) && j != i ensures IsFree(r, j) == IsFree(m, j) {
      MaskFacts(i, j);
      ClearBits(m.bitmap[i / 8], Mask(i), Mask(j));
    }
    r
  }

  /** The byte `b` with the bits of `x` cleared. */
  function Clear(b: bv8, x: bv8): bv8
  {
    b & !x
  }

  lemma ClearBits(b: bv8, x: bv8, y: bv8)
    ensures Clear(b, x) & x == 0
    ensures x & y == 0 ==> Clear(b, x) & y == b & y
  {
  }

  lemma MarkIdempotent(m: FreeSpaceManager, i: nat)
    requires InMap(m, i)
    ensures MarkUsed(MarkUsed(m, i), i) == MarkUsed(m, i)
    ensures MarkFree(MarkFree(m, i), i) == MarkFree(m, i)
  {
  }

  /** `n` consecutive blocks from `s`, all below `totalBlocks` and all free. */
  predicate FreeRun(m: FreeSpaceManager, s: nat, n: nat)
    requires Valid(m)
  {
    s + n <= m.totalBlocks && forall k :: s <= k < s + n ==> IsFree(m, k)
  }

  /** `findFreeBlocks(N)`: a left-to-right first-fit scan for `N` consecutive free blocks,
      answering the start of the first such run or -1. */
  method FindFreeBlocks(m: FreeSpaceManager, n: u64) returns (r: int)
    requires Valid(m)
    ensures r == -1 || (0 <= r && n >= 1 && FreeRun(m, r, n))
    ensures r >= 0 ==> forall s :: 0 <= s < r ==> !FreeRun(m, s, n)
    ensures r == -1 <==> n == 0 || forall s :: 0 <= s <= m.totalBlocks ==> !FreeRun(m, s, n)
  {
    var consecutive: nat := 0;
    var start: nat := 0;
    var i: nat := 0;
    while i < m.totalBlocks
      invariant i <= m.totalBlocks
      invariant n > 0 ==> Scanned(m, n, i, consecutive)
      invariant consecutive > 0 ==> start == i - consecutive
    {
      if IsFree(m, i) {
        if consecutive == 0 {
          start := i;
        }
        if n > 0 {
          if consecutive + 1 < n {
            ScanFree(m, n, i, consecutive);
          } else {
            RunFound(m, n, i, consecutive);
          }
        }
        consecutive := consecutive + 1;
        if consecutive == n {
          return start;
        }
      } else {
        if n > 0 {
          ScanUsed(m, n, i, consecutive);
        }
        consecutive := 0;
      }
      i := i + 1;
    }
    return -1;
  }

  /** What the scan knows after `i` blocks: the last `c` of them are free and the one before
      them is not, `c` is short of `n`, and no run of `n` free blocks lies below `i`. */
  predicate Scanned(m: FreeSpaceManager, n: nat, i: nat, c: nat)
    requires Valid(m)
  {
    i <= m.totalBlocks && c <= i && c < n
    && (forall k :: i - c <= k < i ==> IsFree(m, k))
    && (c < i ==> !IsFree(m, i - c - 1))
    && NoRunBelow(m, n, i)
  }

  /** No run of `n` free blocks ends at or before block `i`. */
  predicate NoRunBelow(m: FreeSpaceManager, n: nat, i: nat)
    requires Valid(m)
  {
    forall s :: 0 <= s && s + n <= i ==> !FreeRun(m, s, n)
  }

  /** A free block extends the stretch. */
  lemma ScanFree(m: FreeSpaceManager, n: nat, i: nat, c: nat)
    requires Valid(m) && i < m.totalBlocks && Scanned(m, n, i, c) && IsFree(m, i) && c + 1 < n
    ensures Scanned(m, n, i + 1, c + 1)
  {
    NoRunStep(m, n, i, c + 1);
  }

  /** A used block ends the stretch. */
  lemma ScanUsed(m: FreeSpaceManager, n: nat, i: nat, c: nat)
    requires Valid(m) && i < m.totalBlocks && Scanned(m, n, i, c) && !IsFree(m, i)
    ensures Scanned(m, n, i + 1, 0)
  {
    NoRunStep(m, n, i, 0);
  }

  /** A free block that brings the stretch to `n` completes the first run of `n`. */
  lemma RunFound(m: FreeSpaceManager, n: nat, i: nat, c: nat)
    requires Valid(m) && i < m.totalBlocks && Scanned(m, n, i, c) && IsFree(m, i) && c + 1 == n
    ensures FreeRun(m, i - c, n)
    ensures forall s :: 0 <= s < i - c ==> !FreeRun(m, s, n)
  {
  }

  /** After block `i`, where the current stretch of free blocks is `c` long and shorter than `n`,
      still no run of `n` has been passed. */
  lemma NoRunStep(m: FreeSpaceManager, n: nat, i: nat, c: nat)
    requires Valid(m) && 0 < n && i < m.totalBlocks && c < n && c <= i + 1
    requires NoRunBelow(m, n, i)
    requires c < i + 1 ==> !IsFree(m, i - c)
    ensures NoRunBelow(m, n, i + 1)
  {
    forall s | 0 <= s && s + n <= i + 1
      ensures !FreeRun(m, s, n)
    {
      if s + n == i + 1 {
        assert s <= i - c < s + n;
      }
    }
  }
}
