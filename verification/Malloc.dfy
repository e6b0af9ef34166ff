/**
 The block allocator that serves the network stack: a table with one entry per block, 0 for a free block
 and otherwise the length of the region the block belongs to. The table does not record where regions
 start; that it nevertheless describes disjoint live regions is the invariant.
*/
module Malloc {
  import opened Bits

  const FAILED: U32 := 0xFFFF_FFFF

  /** The live regions: first block to number of blocks. */
  type Regions = map<int, int>

  ghost predicate Covers(live: Regions, s: int, i: int) {
    s in live && s <= i < s + live[s]
  }

  /** The regions are non-empty, inside the table and pairwise disjoint. */
  ghost predicate Laid(live: Regions, length: nat) {
    && (forall s | s in live :: 0 <= s && 0 < live[s] && s + live[s] <= length)
    && (forall s, s' | s in live && s' in live && s < s' :: s + live[s] <= s')
  }

  /** Every block of a region holds the region's length. */
  ghost predicate Labelled(table: seq<U16>, live: Regions) {
    forall s, i | Covers(live, s, i) :: 0 <= i < |table| && table[i] == live[s]
  }

  /** Every block that is not free is in a region. */
  ghost predicate Owned(table: seq<U16>, live: Regions) {
    forall i | 0 <= i < |table| && table[i] != 0 :: exists s :: Covers(live, s, i)
  }

  ghost predicate Describes(table: seq<U16>, live: Regions) {
    Laid(live, |table|) && Labelled(table, live) && Owned(table, live)
  }

  /** `n` free blocks from block `t` on. */
  ghost predicate FreeRun(table: seq<U16>, t: int, n: int) {
    0 <= t && t + n <= |table| && forall i | t <= i < t + n :: table[i] == 0
  }

  /** `n` blocks from block `s` on set to `value`. */
  ghost function Filled(table: seq<U16>, s: int, n: int, value: U16): (r: seq<U16>)
    ensures |r| == |table|
    ensures forall i | 0 <= i < |r| :: r[i] == if s <= i < s + n then value else table[i]
  {
    seq(|table|, i requires 0 <= i < |table| => if s <= i < s + n then value else table[i])
  }

  /** A free run overlaps no live region. */
  lemma Apart(table: seq<U16>, live: Regions, s: int, n: int, s': int)
    requires Describes(table, live) && n > 0 && FreeRun(table, s, n) && s' in live
    ensures s' + live[s'] <= s || s + n <= s'
  {
    assert Covers(live, s', s');
    assert Covers(live, s', s) <==> s' <= s < s' + live[s'];
  }

  lemma MarkLaid(live: Regions, length: nat, s: int, n: int)
    requires Laid(live, length) && 0 <= s && 0 < n && s + n <= length
    requires forall s' | s' in live :: s' + live[s'] <= s || s + n <= s'
    ensures s !in live && Laid(live[s := n], length)
  {
  }

  lemma MarkLabelled(table: seq<U16>, live: Regions, s: int, n: U16)
    requires Labelled(table, live) && 0 <= s && s + n <= |table|
    requires forall s' | s' in live :: s' + live[s'] <= s || s + n <= s'
    ensures Labelled(Filled(table, s, n, n), live[s := n])
  {
    var live' := live[s := n];
    forall s', i | Covers(live', s', i)
      ensures 0 <= i < |table| && Filled(table, s, n, n)[i] == live'[s']
    {
      assert s' != s ==> Covers(live, s', i);
    }
  }

  lemma MarkOwned(table: seq<U16>, live: Regions, s: int, n: U16)
    requires Owned(table, live) && s !in live
    ensures Owned(Filled(table, s, n, n), live[s := n])
  {
    var t, live' := Filled(table, s, n, n), live[s := n];
    forall i | 0 <= i < |t| && t[i] != 0
      ensures exists s' :: Covers(live', s', i)
    {
      if s <= i < s + n {
        assert Covers(live', s, i);
      } else {
        var s' :| Covers(live, s', i);
        assert Covers(live', s', i);
      }
    }
  }

  /** Marking a free run adds one region. */
  lemma MarkDescribes(table: seq<U16>, live: Regions, s: int, n: U16)
    requires Describes(table, live) && n > 0 && FreeRun(table, s, n)
    ensures s !in live && Describes(Filled(table, s, n, n), live[s := n])
  {
    hide Laid, Labelled, Owned;
    forall s' | s' in live
      ensures s' + live[s'] <= s || s + n <= s'
    {
      Apart(table, live, s, n, s');
    }
    MarkLaid(live, |table|, s, n);
    MarkLabelled(table, live, s, n);
    MarkOwned(table, live, s, n);
  }

  /** Clearing as many blocks as the entry at `index` says removes the region that `index` lies in and
      leaves every other one, exactly when `index` is that region's first block. */
  lemma ClearDescribes(table: seq<U16>, live: Regions, s: int, index: int)
    requires Describes(table, live) && Covers(live, s, index)
    ensures Describes(Filled(table, index, live[s], 0), live - {s}) <==> index == s
  {
    var t, live' := Filled(table, index, live[s], 0), live - {s};
    if index == s {
      forall s', i | Covers(live', s', i)
        ensures 0 <= i < |t| && t[i] == live'[s']
      {
        assert Covers(live, s', i);
      }
      forall i | 0 <= i < |t| && t[i] != 0
        ensures exists s' :: Covers(live', s', i)
      {
        var s' :| Covers(live, s', i);
        assert Covers(live', s', i);
      }
    } else {
      assert Covers(live, s, s);
      assert t[s] != 0;
      assert forall s' :: Covers(live', s', s) ==> Covers(live, s', s);
    }
  }

  /** The table does not say where regions start, but it determines them. */
  lemma SameRegions(table: seq<U16>, live: Regions, live': Regions)
    requires Describes(table, live) && Describes(table, live')
    ensures live == live'
  {
    forall s | s in live
      ensures s in live' && live'[s] == live[s]
    {
      SameRegion(table, live, live', s);
    }
    forall s | s in live'
      ensures s in live
    {
      SameRegion(table, live', live, s);
    }
  }

  lemma {:induction false} SameRegion(table: seq<U16>, live: Regions, live': Regions, s: int)
    requires Describes(table, live) && Describes(table, live') && s in live
    ensures s in live' && live'[s] == live[s]
    decreases s
  {
    assert Covers(live, s, s);
    var s' :| Covers(live', s', s);
    assert Covers(live', s', s');
    if s' < s {
      SameRegion(table, live', live, s');
    }
  }

  // ---------- Blocks for a size ----------

  /** Whole blocks for `size` bytes, and the 16 bits of that number that the allocator keeps. */
  function Blocks(size: U32, blockSize: nat): nat
    requires blockSize > 0
  {
    size / blockSize + if size % blockSize != 0 then 1 else 0
  }

  lemma Wrap16Is(n: nat)
    ensures if n < 0x1_0000 then Wrap16(n) == n else Wrap16(n) <= n - 0x1_0000
    ensures Wrap16(Wrap16(n) as int + 1) == Wrap16(n + 1)
  {
  }

  lemma Spread(x: int, y: int, k: nat)
    ensures (x + y) * k == x * k + y * k
  {
  }

  /** The number of blocks is the least that holds the request. */
  lemma Rounded(size: nat, blockSize: nat)
    requires blockSize > 0 && size < 0x1_0000_0000
    ensures size <= Blocks(size, blockSize) * blockSize && (size == 0 ==> Blocks(size, blockSize) == 0)
    ensures size > 0 ==> (Blocks(size, blockSize) - 1) * blockSize < size
  {
    var q, r := size / blockSize, size % blockSize;
    assert size == q * blockSize + r;
    Spread(q, 1, blockSize);
    Spread(q, -1, blockSize);
    MulMonotone(1, q, blockSize);
  }

  /** The region is large enough for the request exactly when the number of blocks fits 16 bits. */
  lemma LargeEnough(size: U32, blockSize: nat)
    requires blockSize > 0
    ensures Wrap16(Blocks(size, blockSize)) * blockSize >= size <==> Blocks(size, blockSize) < 0x1_0000
  {
    hide Wrap16, Blocks;
    var n := Blocks(size, blockSize);
    Wrap16Is(n);
    Rounded(size, blockSize);
    MulMonotone(Wrap16(n), n as int - 1, blockSize);
  }

  // ---------- Counting ----------

  ghost function Used(table: seq<U16>): nat {
    if table == [] then 0 else Used(table[..|table| - 1]) + if table[|table| - 1] != 0 then 1 else 0
  }

  lemma UsedEnds(table: seq<U16>)
    ensures Used(table[..0]) == 0 && table[..|table|] == table
  {
  }

  lemma UsedStep(table: seq<U16>, i: nat)
    requires i < |table|
    ensures Used(table[..i + 1]) == Used(table[..i]) + if table[i] != 0 then 1 else 0
  {
    assert table[..i + 1][..i] == table[..i];
  }

  lemma {:induction false} UsedBound(table: seq<U16>)
    ensures Used(table) <= |table|
  {
    if table != [] {
      UsedBound(table[..|table| - 1]);
    }
  }

  /** Releasing a region gives back exactly its blocks. */
  lemma UsedReleased(table: seq<U16>, live: Regions, s: int)
    requires Describes(table, live) && s in live
    ensures Used(Filled(table, s, live[s], 0)) == Used(table) - live[s]
  {
    var n := live[s];
    var t := Filled(table, s, n, 0);
    forall i | s <= i < s + n
      ensures table[i] == n
    {
      assert Covers(live, s, i);
    }
    assert table[s] == n;
    assert Filled(t, s, n, n) == table;
    UsedFilled(t, s, n, n);
  }

  /** Marking a run of free blocks uses that many more. */
  lemma {:induction false} UsedFilled(table: seq<U16>, s: int, n: int, value: U16)
    requires FreeRun(table, s, n) && 0 <= n && value != 0
    ensures Used(Filled(table, s, n, value)) == Used(table) + n
    decreases |table|
  {
    var t := Filled(table, s, n, value);
    if table == [] {
    } else if s + n == |table| && n > 0 {
      assert t[..|t| - 1] == Filled(table[..|table| - 1], s, n - 1, value);
      UsedFilled(table[..|table| - 1], s, n - 1, value);
    } else if n > 0 {
      assert t[..|t| - 1] == Filled(table[..|table| - 1], s, n, value);
      UsedFilled(table[..|table| - 1], s, n, value);
    } else {
      assert t == table;
    }
  }

  // ---------- What the calls promise ----------

  /** A place where the search for `n` blocks may stop: room for them, or, for `n` 0, a block in use. */
  ghost predicate Place(table: seq<U16>, t: int, n: U16) {
    FreeRun(table, t, n) && (n == 0 ==> t < |table| && table[t] != 0)
  }

  ghost predicate Highest(table: seq<U16>, t: int, n: U16) {
    Place(table, t, n) && forall t' | t' > t :: !Place(table, t', n)
  }

  /** A region of `n` blocks from block `t` on has been added, and nothing else has changed. */
  ghost predicate Adds(table: seq<U16>, live: Regions, t: int, n: U16, table': seq<U16>, live': Regions) {
    table' == Filled(table, t, n, n) && live' == if n > 0 then live[t := n] else live
  }

  /** What an allocation does: `n` is the number of blocks as the allocator keeps it. */
  ghost predicate Served(size: U32, blockSize: nat, table: seq<U16>, live: Regions,
                         offset: U32, table': seq<U16>, live': Regions)
    requires blockSize > 0
  {
    var n, t := Wrap16(Blocks(size, blockSize)), offset / blockSize;
    if offset == FAILED then
      table' == table && live' == live && (size == 0 || forall t :: !Place(table, t, n))
    else
      size > 0 && offset == t * blockSize && Highest(table, t, n) && Adds(table, live, t, n, table', live')
  }

  /** What an allocation should do: a new region with room for the request if there is any, else fail. */
  ghost predicate Proper(size: U32, blockSize: nat, table: seq<U16>, live: Regions,
                         offset: U32, table': seq<U16>, live': Regions)
    requires blockSize > 0
  {
    var n, t := Blocks(size, blockSize), offset / blockSize;
    if offset == FAILED then
      table' == table && live' == live && forall t :: !FreeRun(table, t, n)
    else
      && offset == t * blockSize && FreeRun(table, t, n) && 0 < n < 0x1_0000
      && Adds(table, live, t, n, table', live')
  }

  /** The two agree exactly when the number of blocks fits 16 bits, or the search for what is left of it
      fails too. Any pool is smaller than the other requests, and should refuse them. */
  lemma ServedProperly(size: U32, blockSize: nat, table: seq<U16>, live: Regions,
                       offset: U32, table': seq<U16>, live': Regions)
    requires blockSize > 0 && size > 0 && |table| < 0x1_0000
    requires Served(size, blockSize, table, live, offset, table', live')
    ensures Proper(size, blockSize, table, live, offset, table', live')
       <==> || Blocks(size, blockSize) < 0x1_0000
            || forall t :: !Place(table, t, Wrap16(Blocks(size, blockSize)))
  {
    hide Adds, Blocks, Wrap16;
    var n := Blocks(size, blockSize);
    Rounded(size, blockSize);
    Wrap16Is(n);
    if n < 0x1_0000 {
      assert forall t :: Place(table, t, n) <==> FreeRun(table, t, n);
    }
  }

  /** The number of blocks is the quotient rounded up. */
  lemma BlocksIs(size: U32, blockSize: nat)
    requires blockSize > 0
    ensures Blocks(size, blockSize) == (size + blockSize - 1) / blockSize
  {
    var q, r := size / blockSize, size % blockSize;
    assert size == q * blockSize + r;
    if r == 0 {
      DivUnique(size + blockSize - 1, blockSize, q, blockSize - 1);
    } else {
      Spread(q, 1, blockSize);
      DivUnique(size + blockSize - 1, blockSize, q + 1, r - 1);
    }
  }

  /** An allocation whose number of blocks fits 16 bits, entry by entry. */
  lemma ServedInNumbers(size: U32, blockSize: nat, table: seq<U16>, live: Regions,
                        offset: U32, table': seq<U16>, live': Regions)
    requires blockSize > 0 && Served(size, blockSize, table, live, offset, table', live')
    ensures size == 0 ==> offset == 0xFFFF_FFFF
    ensures offset == 0xFFFF_FFFF ==> table' == table && live' == live
    ensures var n, t := (size + blockSize - 1) / blockSize, offset / blockSize;
            0 < size && n < 0x1_0000 ==>
              if offset == 0xFFFF_FFFF then forall t' :: !FreeRun(table, t', n)
              else
                && offset == t * blockSize && t + n <= |table| == |table'|
                && (forall i | t <= i < t + n :: table[i] == 0 && table'[i] == n)
                && (forall i | 0 <= i < |table| && !(t <= i < t + n) :: table'[i] == table[i])
                && (forall t' | t' > t :: !FreeRun(table, t', n))
                && live' == live[t := n]
  {
    hide Blocks, Wrap16;
    var n := (size + blockSize - 1) / blockSize;
    BlocksIs(size, blockSize);
    Rounded(size, blockSize);
    Wrap16Is(n);
    if 0 < size && n < 0x1_0000 {
      assert forall t' :: Place(table, t', n) <==> FreeRun(table, t', n);
    }
  }

  lemma OffsetFits(t: nat, length: nat, blockSize: nat)
    requires t < length && blockSize > 0 && length * blockSize < FAILED
    ensures t * blockSize < FAILED && t * blockSize / blockSize == t
  {
    MulMonotone(t, length, blockSize);
    DivUnique(t * blockSize, blockSize, t, 0);
  }

  lemma WholeBlocks(n: nat, blockSize: nat)
    requires blockSize > 0 && n * blockSize < 0x1_0000_0000
    ensures Blocks(n * blockSize, blockSize) == n && (n > 0 ==> n * blockSize > 0)
  {
    DivUnique(n * blockSize, blockSize, n, 0);
    MulMonotone(1, n, blockSize);
  }

  /** A request of 65537 blocks is served with one block, from any table whose last block is free. */
  lemma OversizedServed(table: seq<U16>, live: Regions, blockSize: nat)
    requires 0 < blockSize && 0x1_0001 * blockSize < 0x1_0000_0000
    requires 0 < |table| < 0x1_0000 && |table| * blockSize < FAILED && table[|table| - 1] == 0
    ensures var t, size := |table| - 1, 0x1_0001 * blockSize;
            && t * blockSize < FAILED
            && Served(size, blockSize, table, live, t * blockSize, Filled(table, t, 1, 1), live[t := 1])
            && !Proper(size, blockSize, table, live, t * blockSize, Filled(table, t, 1, 1), live[t := 1])
  {
    hide Blocks;
    var t := |table| - 1;
    WholeBlocks(0x1_0001, blockSize);
    OffsetFits(t, |table|, blockSize);
    assert Wrap16(0x1_0001) == 1;
    assert Highest(table, t, 1);
  }

  /** Releasing what was just allocated restores the table and the regions exactly if the number of blocks
      was not cut to 0. */
  lemma RoundTrip(size: U32, blockSize: nat, table: seq<U16>, live: Regions,
                  offset: U32, table': seq<U16>, live': Regions)
    requires blockSize > 0 && Describes(table, live)
    requires Served(size, blockSize, table, live, offset, table', live') && offset != FAILED
    ensures 0 <= offset / blockSize < |table'|
    ensures var t := offset / blockSize;
            Filled(table', t, table'[t], 0) == table && live' - {t} == live <==> Wrap16(Blocks(size, blockSize)) > 0
  {
    hide Blocks, Wrap16, Describes;
    var n, t := Wrap16(Blocks(size, blockSize)), offset / blockSize;
    if n > 0 {
      MarkDescribes(table, live, t, n);
      assert table'[t] == n;
      assert live' - {t} == live;
    } else {
      assert Filled(table', t, table'[t], 0)[t] != table[t];
    }
  }

  /** A request of 65536 blocks is cut to 0. It is served with the highest block in use, which stays in the
      live region it belongs to: that block has two owners. */
  lemma HandedOutAgain(table: seq<U16>, live: Regions, t: int, blockSize: nat)
    requires Describes(table, live) && 0 < blockSize && 0x1_0000 * blockSize < 0x1_0000_0000
    requires 0 <= t < |table| && table[t] != 0 && forall t' | t < t' < |table| :: table[t'] == 0
    requires |table| * blockSize < FAILED
    ensures t * blockSize < FAILED
    ensures Served(0x1_0000 * blockSize, blockSize, table, live, t * blockSize, table, live)
    ensures exists s :: Covers(live, s, t)
  {
    hide Blocks;
    WholeBlocks(0x1_0000, blockSize);
    OffsetFits(t, |table|, blockSize);
    assert Wrap16(0x1_0000) == 0;
    assert Highest(table, t, 0);
    assert Filled(table, t, 0, 0) == table;
  }

  /** Live regions occupy disjoint ranges of bytes inside the pool. */
  lemma ByteRangesApart(live: Regions, length: nat, blockSize: nat, s: int, s': int)
    requires Laid(live, length) && s in live && s' in live && s < s'
    ensures 0 <= s * blockSize
    ensures s * blockSize + live[s] * blockSize <= s' * blockSize
    ensures s' * blockSize + live[s'] * blockSize <= length * blockSize
  {
    MulMonotone(0, s, blockSize);
    MulMonotone(s + live[s], s', blockSize);
    MulMonotone(s' + live[s'], length, blockSize);
    Spread(s, live[s], blockSize);
    Spread(s', live[s'], blockSize);
  }

  /** Every entry that releasing block `k` clears is in the table. */
  ghost predicate InTable(table: seq<U16>, k: int) {
    0 <= k < |table| && k + table[k] <= |table|
  }

  /** `k` is a block of a live region, but not its first. */
  ghost predicate Inside(live: Regions, k: int) {
    exists s :: Covers(live, s, k) && s != k
  }

  /** Releasing stays in the table for a free block and for a region's first; inside a region it does exactly
      if there are as many entries from that block on as the region has blocks. */
  lemma ReleaseInTable(table: seq<U16>, live: Regions, k: int)
    requires Describes(table, live) && 0 <= k < |table|
    ensures InTable(table, k) <==> forall s | Covers(live, s, k) :: k + live[s] <= |table|
    ensures !Inside(live, k) ==> InTable(table, k)
  {
    if table[k] != 0 {
      var s :| Covers(live, s, k);
      assert table[k] == live[s];
    }
  }

  /** So it writes beyond the table from any block but the first of a region at the table's end. */
  lemma ReleaseOverruns(table: seq<U16>, live: Regions, s: int, k: int)
    requires Describes(table, live) && Covers(live, s, k) && s + live[s] == |table|
    ensures !InTable(table, k) <==> k != s
  {
    ReleaseInTable(table, live, k);
  }

  lemma OverrunExample()
    ensures Describes([2, 2], map[0 := 2]) && !InTable([2, 2], 1)
  {
    var live: Regions := map[0 := 2];
    assert Covers(live, 0, 0) && Covers(live, 0, 1);
  }

  /** A free block, or the first block of a region, can be released; after releasing any other block the
      table no longer describes the live regions. */
  lemma FreeDescribes(table: seq<U16>, live: Regions, k: int)
    requires Describes(table, live) && 0 <= k < |table|
    ensures Describes(Filled(table, k, table[k], 0), live - {k}) <==> !Inside(live, k)
  {
    if table[k] == 0 {
      assert Filled(table, k, table[k], 0) == table;
      assert k in live ==> Covers(live, k, k);
      assert live - {k} == live;
    } else {
      var s :| Covers(live, s, k);
      ClearDescribes(table, live, s, k);
      if s != k {
        assert k !in live;
        assert live - {k} == live;
        assert Covers(live, s, k);
      }
    }
  }

  lemma AtMostAll(used: nat, length: nat)
    requires used <= length && length > 0
    ensures used * 100 / length <= 100
  {
    BlockOf(used * 100, 101, length);
  }

  lemma BlockOf(offset: nat, length: nat, blockSize: nat)
    requires blockSize > 0 && offset < length * blockSize
    ensures offset / blockSize < length
  {
    assert offset == offset / blockSize * blockSize + offset % blockSize;
    MulMonotone(length, offset / blockSize, blockSize);
  }

  // ---------- The allocator ----------

  class Pool {
    const memmap: array<U16>
    const blockSize: nat
    var ready: bool
    ghost var live: Regions

    ghost predicate Valid()
      reads this, memmap
    {
      && 0 < blockSize && 0 < memmap.Length < 0x1_0000 && memmap.Length * blockSize < FAILED
      && (if ready then Describes(memmap[..], live) else live == map[])
    }

    /** A pool that has not been initialised: its table holds anything. */
    constructor (memmap: array<U16>, blockSize: nat)
      requires 0 < blockSize && 0 < memmap.Length < 0x1_0000 && memmap.Length * blockSize < FAILED
      ensures Valid() && !ready && this.memmap == memmap && this.blockSize == blockSize
    {
      this.memmap, this.blockSize := memmap, blockSize;
      ready := false;
      live := map[];
    }

    /** `memsize`: the table covers the whole pool. */
    function MemSize(): nat
      reads this
    {
      memmap.Length * blockSize
    }

    /** The table as the next call finds it: one that is not ready is cleared first. */
    ghost function Table(): seq<U16>
      reads this, memmap
    {
      if ready then memmap[..] else seq(memmap.Length, _ => 0)
    }

    method Init()
      requires Valid()
      modifies this`ready, this`live, memmap
      ensures Valid() && ready && live == map[] && Table() == seq(memmap.Length, _ => 0)
    {
      for i := 0 to memmap.Length
        invariant forall j | 0 <= j < i :: memmap[j] == 0
      {
        memmap[i] := 0;
      }
      ready := true;
      live := map[];
    }

    /** The loop that marks: `n` entries from `s` on are set to `value`. */
    method Fill(s: nat, n: nat, value: U16)
      requires s + n <= memmap.Length
      modifies memmap
      ensures memmap[..] == Filled(old(memmap[..]), s, n, value)
    {
      for i := 0 to n
        invariant forall j | 0 <= j < memmap.Length ::
                    memmap[j] == if s <= j < s + i then value else old(memmap[j])
      {
        memmap[s + i] := value;
      }
    }

    /** The loop that clears. It returns whether it goes on beyond the end of the table; what it writes there
        is not modelled. */
    method Clear(s: nat, n: nat) returns (overrun: bool)
      requires s <= memmap.Length
      modifies memmap
      ensures memmap[..] == Filled(old(memmap[..]), s, n, 0)
      ensures overrun <==> s + n > memmap.Length
    {
      for i := 0 to n
        invariant s + i <= memmap.Length
        invariant forall j | 0 <= j < memmap.Length ::
                    memmap[j] == if s <= j < s + i then 0 else old(memmap[j])
      {
        if s + i == memmap.Length {
          return true;
        }
        memmap[s + i] := 0;
      }
      return false;
    }

    /** The search from the top of the table. */
    method Search(n: U16) returns (offset: int)
      requires 0 < memmap.Length < 0x1_0000
      ensures -1 <= offset < memmap.Length
      ensures offset >= 0 ==> Place(memmap[..], offset, n)
      ensures forall t | t > offset || offset < 0 :: !Place(memmap[..], t, n)
    {
      var cmemb: U16 := 0;
      offset := memmap.Length - 1;
      while offset >= 0
        invariant -1 <= offset < memmap.Length
        invariant offset + 1 + cmemb <= memmap.Length
        invariant forall i | offset < i <= offset + cmemb :: memmap[i] == 0
        invariant offset + 1 + cmemb == memmap.Length || memmap[offset + 1 + cmemb] != 0
        invariant forall t | t > offset :: !Place(memmap[..], t, n)
        invariant n > 0 ==> cmemb < n
        invariant n == 0 ==> offset + 1 + cmemb == memmap.Length
        decreases offset
      {
        if memmap[offset] == 0 {
          cmemb := cmemb + 1;
        } else {
          cmemb := 0;
        }
        if cmemb == n {
          return;
        }
        offset := offset - 1;
      }
    }

    /** The number of blocks, in a 16-bit variable. */
    method Count(size: U32) returns (nmemb: U16)
      requires blockSize > 0
      ensures nmemb == Wrap16(Blocks(size, blockSize))
    {
      hide Wrap16;
      Wrap16Is(size / blockSize);
      nmemb := Wrap16(size / blockSize);
      if size % blockSize != 0 {
        nmemb := Wrap16(nmemb as int + 1);
      }
    }

    /** Marks the place that the search has found. */
    method Take(place: nat, n: U16)
      requires Valid() && ready && Place(memmap[..], place, n)
      modifies this`live, memmap
      ensures Valid() && Adds(old(memmap[..]), old(live), place, n, memmap[..], live)
    {
      hide Describes;
      if n > 0 {
        MarkDescribes(memmap[..], live, place, n);
        live := live[place as int := n as int];
      }
      Fill(place, n, n);
      assert n == 0 ==> memmap[..] == old(memmap[..]);
    }

    /** `mymem_malloc`. */
    method Allocate(size: U32) returns (offset: U32)
      requires Valid()
      modifies this`ready, this`live, memmap
      ensures Valid() && ready
      ensures Served(size, blockSize, old(Table()), old(live), offset, Table(), live)
      ensures size == 0 ==> offset == 0xFFFF_FFFF
      ensures offset == 0xFFFF_FFFF ==> Table() == old(Table()) && live == old(live)
      ensures var n, t, before := (size + blockSize - 1) / blockSize, offset / blockSize, old(Table());
              0 < size && n < 0x1_0000 ==>
                if offset == 0xFFFF_FFFF then forall t' :: !FreeRun(before, t', n)
                else
                  && offset == t * blockSize && t + n <= |before| == memmap.Length
                  && (forall i | t <= i < t + n :: before[i] == 0 && memmap[i] == n)
                  && (forall i | 0 <= i < |before| && !(t <= i < t + n) :: memmap[i] == before[i])
                  && (forall t' | t' > t :: !FreeRun(before, t', n))
                  && live == old(live)[t := n]
    {
      hide Describes, Place, Adds, FreeRun, Blocks, Wrap16, Served;
      offset := Serve(size);
      ServedInNumbers(size, blockSize, old(Table()), old(live), offset, Table(), live);
    }

    /** The body of `mymem_malloc`. */
    method Serve(size: U32) returns (offset: U32)
      requires Valid()
      modifies this`ready, this`live, memmap
      ensures Valid() && ready
      ensures Served(size, blockSize, old(Table()), old(live), offset, Table(), live)
    {
      hide Describes, Place, Adds, FreeRun, Blocks, Wrap16;
      if !ready {
        Init();
      }
      if size == 0 {
        return FAILED;
      }
      var nmemb := Count(size);
      var place := Search(nmemb);
      if place < 0 {
        return FAILED;
      }
      OffsetFits(place, memmap.Length, blockSize);
      Take(place, nmemb);
      return place * blockSize;
    }

    /** `mymem_free`. The source does not check where `offset` lies inside the pool. */
    method Free(offset: U32) returns (r: nat, overrun: bool)
      requires Valid()
      modifies this`ready, this`live, memmap
      ensures ready && r == if !old(ready) then 1 else if offset < MemSize() then 0 else 2
      ensures r != 0 ==> Valid() && Table() == old(Table()) && live == old(live) && !overrun
      ensures r == 0 ==> var k := offset / blockSize;
                && k < memmap.Length
                && (overrun <==> !InTable(old(Table()), k))
                && (overrun <==> k + old(Table())[k] > memmap.Length)
                && Table() == Filled(old(Table()), k, old(Table())[k], 0)
                && live == old(live) - {k}
                && (Valid() <==> !Inside(old(live), k))
    {
      hide Describes;
      if !ready {
        Init();
        return 1, false;
      }
      if offset < MemSize() {
        BlockOf(offset, memmap.Length, blockSize);
        var index := offset / blockSize;
        var nmemb := memmap[index];
        FreeDescribes(memmap[..], live, index);
        live := live - {index as int};
        overrun := Clear(index, nmemb);
        return 0, overrun;
      }
      return 2, false;
    }

    /** `mem_perused`. */
    method PercentUsed() returns (percent: nat)
      requires Valid()
      ensures percent == Used(memmap[..]) * 100 / memmap.Length <= 100
    {
      hide Describes, Used;
      var used := 0;
      ghost var table := memmap[..];
      UsedEnds(table);
      for i := 0 to memmap.Length
        invariant used == Used(table[..i])
      {
        UsedStep(table, i);
        if memmap[i] != 0 {
          used := used + 1;
        }
      }
      UsedBound(table);
      AtMostAll(used, memmap.Length);
      percent := used * 100 / memmap.Length;
    }
  }
}
