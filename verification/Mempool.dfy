/**
The run allocator of wd_mempool.c and the block pools built on it.  Every public
call keeps `Ledger`: the bitmap, the counters and the zones of the live pools agree,
whatever the sequence of creations, failed creations and destructions.
*/
module Mempool {
  import opened ModArith
  import opened Sequences
  import opened WordBitmap
  import opened MemZones

  const U64: nat := 0x1_0000_0000_0000_0000
  const U32: nat := 0x1_0000_0000
  const I31: nat := 0x8000_0000

  /** A 64-bit size stored in an int. */
  function Int32(x: nat): (r: int)
    ensures 0 - I31 <= r < I31 && r <= x && (r == x <==> x < I31)
  {
    if x % U32 < I31 then x % U32 else x % U32 - U32
  }

  /** It differs from the size by a multiple of 2^32. */
  lemma Int32Is(x: nat)
    ensures exists k: nat :: Int32(x) == x - k * U32
  {
    var q := x / U32;
    assert x == q * U32 + x % U32;
    assert Int32(x) == x - q * U32 || Int32(x) == x - (q + 1) * U32;
  }

  // ---------- searching a run ----------

  function AllClear(bits: nat): (b: seq<bool>)
    ensures |b| == bits && forall i :: 0 <= i < bits ==> !b[i]
  {
    seq(bits, _ => false)
  }

  predicate FreeRun(b: seq<bool>, s: nat, n: nat) {
    s + n <= |b| && forall k :: s <= k < s + n ==> !b[k]
  }

  /** No run of n clear bits starts at pos or later, before `stop`. */
  ghost predicate NoRun(b: seq<bool>, pos: nat, n: nat, stop: nat) {
    forall s :: pos <= s < stop ==> !FreeRun(b, s, n)
  }

  ghost predicate Leftmost(b: seq<bool>, pos: nat, n: nat, first: nat) {
    pos <= first && FreeRun(b, first, n) && NoRun(b, pos, n, first)
  }

  /** PastEnd: the scan at wd_mempool.c:413-415, begun at first, tests a bit behind the last one. */
  datatype RunResult = Run(first: nat, last: nat) | NoMemory | PastEnd(first: nat)

  /** The scan from pos leaves the bitmap: no run fits, and the last bit is clear. */
  ghost predicate Leaves(b: seq<bool>, pos: nat, n: nat) {
    NoRun(b, pos, n, |b|) && pos < |b| && !b[|b| - 1]
  }

  /** The scan that leaves the bitmap begins where the clear bits at its end begin, behind pos. */
  predicate Tailing(b: seq<bool>, pos: nat, first: nat) {
    && pos <= first < |b| && (forall k :: first <= k < |b| ==> !b[k])
    && (first == pos || b[first - 1])
  }

  /** The search loop of alloc_block_from_mempool, n being mem_combined_num. */
  method FindRun(bitmap: Bitmap, pos: nat, n: nat) returns (r: RunResult)
    requires bitmap.Valid() && n > 0
    ensures r.Run? ==> pos <= r.first && r.last == r.first + n - 1
                       && FreeRun(bitmap.contents, r.first, n) && NoRun(bitmap.contents, pos, n, r.first)
    ensures r.Run? <==> !NoRun(bitmap.contents, pos, n, bitmap.bits)
    ensures r.PastEnd? <==> Leaves(bitmap.contents, pos, n)
    ensures r.PastEnd? ==> Tailing(bitmap.contents, pos, r.first) && bitmap.bits < r.first + n
  {
    var b := bitmap.contents;
    var last := pos;
    while true
      invariant pos <= last && NoRun(b, pos, n, last)
      invariant last > pos ==> last < bitmap.bits && b[last]
      decreases bitmap.bits - last
    {
      var first := bitmap.FindNextZeroBit(last);
      SkipUsed(b, pos, n, last, first);
      if first == bitmap.bits { return NoMemory; }
      assert first == pos || b[first - 1] by { NextZeroBegins(b, pos, last); }
      last := first;
      var i := 0;
      while i < n - 1
        invariant 0 <= i <= n - 1 && last == first + i < bitmap.bits
        invariant forall k :: first <= k <= last ==> !b[k]
      {
        last := last + 1;
        if last >= bitmap.bits {
          ShortTail(b, pos, n, first);
          return PastEnd(first);
        }
        var clear := bitmap.TestBit(last);
        if !clear { break; }
        i := i + 1;
      }
      if i == n - 1 {
        assert FreeRun(b, first, n);
        return Run(first, last);
      }
      Blocked(b, pos, n, first, last);
    }
  }

  lemma NextZeroBegins(b: seq<bool>, pos: nat, last: nat)
    requires pos <= last && NextZero(b, last) < |b| && (last > pos ==> last < |b| && b[last])
    ensures var first := NextZero(b, last); first == pos || b[first - 1]
  {
  }

  /** There are k runs of n clear bits at pos or later, no two of them sharing a bit. */
  ghost predicate RunsFit(b: seq<bool>, pos: nat, n: nat, k: nat)
    decreases k
  {
    k == 0 || exists s: nat :: pos <= s && FreeRun(b, s, n) && RunsFit(b, s + n, n, k - 1)
  }

  lemma {:induction false} RunsFitEarlier(b: seq<bool>, pos: nat, pos': nat, n: nat, k: nat)
    requires pos' <= pos && RunsFit(b, pos, n, k)
    ensures RunsFit(b, pos', n, k)
  {
  }

  /** Taking the leftmost run first never costs a run. */
  lemma LeftmostFirst(b: seq<bool>, pos: nat, n: nat, first: nat, k: nat)
    requires k > 0 && Leftmost(b, pos, n, first)
    ensures RunsFit(b, pos, n, k) <==> RunsFit(b, first + n, n, k - 1)
  {
    if RunsFit(b, pos, n, k) {
      var s: nat :| pos <= s && FreeRun(b, s, n) && RunsFit(b, s + n, n, k - 1);
      RunsFitEarlier(b, s + n, first + n, n, k - 1);
    }
  }

  /**
  Where a sequence of searches stands: b0 is the bitmap it began with, b the present one,
  and what is left to find can be found behind edge exactly when all of it could at first.
  */
  ghost predicate Searched(b0: seq<bool>, b: seq<bool>, pos: nat, edge: nat, n: nat, left: nat, need: nat) {
    && |b| == |b0| && edge <= |b0|
    && (edge == pos == 0 || (edge == pos + 1 && b[pos]))
    && (forall p :: edge <= p < |b0| ==> b[p] == b0[p])
    && (RunsFit(b0, 0, n, need) <==> RunsFit(b0, edge, n, left))
  }

  lemma SameRuns(b0: seq<bool>, b: seq<bool>, pos: nat, edge: nat, n: nat, s: nat)
    requires |b| == |b0| && edge <= |b0| && n > 0 && pos <= s
    requires edge == pos == 0 || (edge == pos + 1 && b[pos])
    requires forall p :: edge <= p < |b0| ==> b[p] == b0[p]
    ensures FreeRun(b, s, n) <==> s >= edge && FreeRun(b0, s, n)
  {
  }

  lemma SearchedStep(b0: seq<bool>, b: seq<bool>, pos: nat, edge: nat, n: nat, left: nat, need: nat, first: nat)
    requires n > 0 && left > 0 && Searched(b0, b, pos, edge, n, left, need)
    requires Leftmost(b, pos, n, first)
    ensures Searched(b0, Paint(b, first, first + n - 1, true), first + n - 1, first + n, n, left - 1, need)
  {
    hide RunsFit;
    forall s: nat | pos <= s ensures FreeRun(b, s, n) <==> s >= edge && FreeRun(b0, s, n) {
      SameRuns(b0, b, pos, edge, n, s);
    }
    LeftmostFirst(b0, edge, n, first, left);
  }

  /** Start of the leftmost run at pos or later; past the end when there is none. */
  function FirstRun(b: seq<bool>, pos: nat, n: nat): (f: nat)
    decreases |b| + 1 - pos
  {
    if pos + n > |b| then |b| + 1 else if FreeRun(b, pos, n) then pos else FirstRun(b, pos + 1, n)
  }

  lemma {:induction false} FirstRunIs(b: seq<bool>, pos: nat, n: nat, first: nat)
    requires Leftmost(b, pos, n, first)
    ensures FirstRun(b, pos, n) == first
    decreases first - pos
  {
    if pos < first {
      assert !FreeRun(b, pos, n);
      FirstRunIs(b, pos + 1, n, first);
    }
  }

  lemma {:induction false} FirstRunNone(b: seq<bool>, pos: nat, n: nat)
    requires n > 0 && NoRun(b, pos, n, |b|)
    ensures FirstRun(b, pos, n) == |b| + 1
    decreases |b| + 1 - pos
  {
    if pos + n <= |b| {
      assert !FreeRun(b, pos, n);
      FirstRunNone(b, pos + 1, n);
    }
  }

  /** Where the k-th of the leftmost runs ends; past the end when there are fewer. */
  function Edge(b: seq<bool>, n: nat, k: nat): (e: nat) {
    if k == 0 then 0
    else
      var e := Edge(b, n, k - 1);
      var f := if e > |b| then |b| + 1 else FirstRun(b, e, n);
      if f > |b| then |b| + 1 else f + n
  }

  /** Behind the first k runs the scan leaves the bitmap. */
  ghost predicate StuckAt(b: seq<bool>, n: nat, k: nat) {
    Leaves(b, Edge(b, n, k), n)
  }

  /** It does so after k of need runs, for all of which a record could be had. */
  ghost predicate Overruns(b: seq<bool>, n: nat, need: nat, zoneOk: nat -> bool) {
    exists k: nat :: k < need && StuckAt(b, n, k) && forall i: nat :: i < k ==> zoneOk(i)
  }

  lemma {:induction false} EdgeGone(b: seq<bool>, n: nat, j: nat, k: nat)
    requires j <= k && Edge(b, n, j) > |b|
    ensures Edge(b, n, k) > |b|
    decreases k
  {
    if j < k { EdgeGone(b, n, j, k - 1); }
  }

  /** A search that ended at run j without leaving the bitmap never leaves it. */
  lemma NeverOverruns(b: seq<bool>, n: nat, need: nat, zoneOk: nat -> bool, j: nat)
    requires forall k: nat :: k <= j ==> !StuckAt(b, n, k)
    requires j + 1 >= need || !zoneOk(j) || Edge(b, n, j + 1) > |b|
    ensures !Overruns(b, n, need, zoneOk)
  {
    if k: nat :| k < need && StuckAt(b, n, k) && forall i: nat :: i < k ==> zoneOk(i) {
      assert zoneOk(j);
      EdgeGone(b, n, j + 1, k);
    }
  }

  lemma OverrunsAt(b: seq<bool>, n: nat, need: nat, zoneOk: nat -> bool, k: nat)
    requires k < need && StuckAt(b, n, k) && forall i: nat :: i < k ==> zoneOk(i)
    ensures Overruns(b, n, need, zoneOk)
  {
  }

  /** Bits clear, set, clear: the scan for two adjoining blocks leaves the bitmap. */
  lemma ScanLeaves()
    ensures Leaves([false, true, false], 0, 2) && Overruns([false, true, false], 2, 1, _ => true)
  {
    var b := [false, true, false];
    forall s | 0 <= s < 3 ensures !FreeRun(b, s, 2) {
      assert s + 2 <= 3 ==> b[1] && s <= 1 < s + 2;
    }
    assert StuckAt(b, 2, 0);
  }

  /** The scan sees the same from pos in the present bitmap as from edge in the first one. */
  lemma LeavesSame(b0: seq<bool>, b: seq<bool>, pos: nat, edge: nat, n: nat, left: nat, need: nat)
    requires n > 0 && Searched(b0, b, pos, edge, n, left, need)
    ensures Leaves(b, pos, n) <==> Leaves(b0, edge, n)
    ensures NoRun(b, pos, n, |b|) <==> NoRun(b0, edge, n, |b0|)
    ensures forall first: nat :: Leftmost(b, pos, n, first) ==> Leftmost(b0, edge, n, first)
  {
    hide RunsFit;
    forall s: nat | pos <= s ensures FreeRun(b, s, n) <==> s >= edge && FreeRun(b0, s, n) {
      SameRuns(b0, b, pos, edge, n, s);
    }
    hide FreeRun;
  }

  /** So does the place where the scan leaves. */
  lemma TailingSame(b0: seq<bool>, b: seq<bool>, pos: nat, edge: nat, n: nat, left: nat, need: nat, first: nat)
    requires Searched(b0, b, pos, edge, n, left, need) && Tailing(b, pos, first)
    ensures Tailing(b0, edge, first)
  {
    hide RunsFit;
  }

  lemma SearchedFails(b0: seq<bool>, b: seq<bool>, pos: nat, edge: nat, n: nat, left: nat, need: nat)
    requires n > 0 && left > 0 && Searched(b0, b, pos, edge, n, left, need) && NoRun(b, pos, n, |b|)
    ensures !RunsFit(b0, 0, n, need)
  {
    forall s: nat | pos <= s ensures FreeRun(b, s, n) <==> s >= edge && FreeRun(b0, s, n) {
      SameRuns(b0, b, pos, edge, n, s);
    }
  }

  lemma SearchedSizes(b0: seq<bool>, b: seq<bool>, pos: nat, edge: nat, n: nat, left: nat, need: nat)
    requires Searched(b0, b, pos, edge, n, left, need)
    ensures |b| == |b0| && edge <= |b0|
  {
  }

  lemma LeavesMeans(b: seq<bool>, pos: nat, n: nat)
    ensures Leaves(b, pos, n) ==> NoRun(b, pos, n, |b|)
  {
  }

  lemma StuckIs(b: seq<bool>, n: nat, k: nat)
    ensures StuckAt(b, n, k) <==> Leaves(b, Edge(b, n, k), n)
  {
  }

  lemma NextEdge(b: seq<bool>, n: nat, k: nat, first: nat)
    requires Edge(b, n, k) <= |b| && Leftmost(b, Edge(b, n, k), n, first)
    ensures Edge(b, n, k + 1) == first + n
  {
    FirstRunIs(b, Edge(b, n, k), n, first);
  }

  lemma NoNextEdge(b: seq<bool>, n: nat, k: nat)
    requires n > 0 && Edge(b, n, k) <= |b| && NoRun(b, Edge(b, n, k), n, |b|)
    ensures Edge(b, n, k + 1) > |b|
  {
    FirstRunNone(b, Edge(b, n, k), n);
  }

  lemma SearchedStart(b: seq<bool>, n: nat, need: nat)
    ensures Searched(b, b, 0, Edge(b, n, 0), n, need, need)
  {
  }

  lemma SearchedAll(b0: seq<bool>, b: seq<bool>, pos: nat, edge: nat, n: nat, need: nat)
    requires Searched(b0, b, pos, edge, n, 0, need)
    ensures RunsFit(b0, 0, n, need)
  {
  }

  lemma SkipUsed(b: seq<bool>, pos: nat, n: nat, last: nat, first: nat)
    requires n > 0 && NoRun(b, pos, n, last) && first == NextZero(b, last)
    ensures NoRun(b, pos, n, first)
  {
    forall s | last <= s < first ensures !FreeRun(b, s, n) {
      assert s < |b| ==> b[s];
    }
  }

  lemma ShortTail(b: seq<bool>, pos: nat, n: nat, first: nat)
    requires NoRun(b, pos, n, first) && first < |b| < first + n
    ensures NoRun(b, pos, n, |b|)
  {
  }

  lemma Blocked(b: seq<bool>, pos: nat, n: nat, first: nat, last: nat)
    requires NoRun(b, pos, n, first) && first < last < |b| && last < first + n && b[last]
    ensures NoRun(b, pos, n, last)
  {
    forall s | first <= s < last ensures !FreeRun(b, s, n) {
      assert b[last];
    }
  }

  /** With one block per zone the scan never leaves the bitmap. */
  lemma SingleNeverPastEnd(b: seq<bool>, pos: nat)
    requires pos < |b| && NoRun(b, pos, 1, |b|)
    ensures b[|b| - 1]
  {
    assert !FreeRun(b, |b| - 1, 1);
  }

  // ---------- pools ----------

  datatype Pool = Pool(blkSize: nat, depth: nat, zones: seq<Zone>, elems: seq<int>)

  /** A handle's slot; destroying the pool empties it. */
  datatype Entry = Gone | Live(pool: Pool)

  /**
  Overran: the scan for the next zone, begun at first, left the bitmap.  Hangs: the search
  finds the same clear bit for ever.  The model stops there.
  */
  datatype Status = Done | OutOfMemory | Overran(first: nat) | Hangs

  function ZonesOf(e: Entry): (zs: seq<Zone>) {
    if e.Live? then e.pool.zones else []
  }

  function AllZones(es: seq<Entry>): (zs: seq<Zone>) {
    if es == [] then [] else AllZones(es[..|es| - 1]) + ZonesOf(es[|es| - 1])
  }

  function TotalBlocks(zs: seq<Zone>): (n: nat) {
    if zs == [] then 0 else TotalBlocks(zs[..|zs| - 1]) + Last(zs).blkNum
  }

  /** init_blkpool_elem: the block addresses, zone by zone. */
  function Elems(zs: seq<Zone>, size: nat): (r: seq<int>)
    ensures |r| == TotalBlocks(zs)
  {
    if zs == [] then []
    else Elems(zs[..|zs| - 1], size) + seq(Last(zs).blkNum, i => Last(zs).addr + i * size)
  }

  /** The blocks of a zone fit in the mempool blocks it occupies. */
  predicate Fits(z: Zone, size: nat, unit: nat) {
    z.begin <= z.end && z.blkNum * size <= (z.end - z.begin + 1) * unit
  }

  predicate AllFit(zs: seq<Zone>, size: nat, unit: nat) {
    forall i :: 0 <= i < |zs| ==> Fits(zs[i], size, unit)
  }

  lemma PushZone(zs: seq<Zone>, z: Zone, size: nat, unit: nat)
    requires AllFit(zs, size, unit) && Fits(z, size, unit)
    ensures AllFit(zs + [z], size, unit) && TotalBlocks(zs + [z]) == TotalBlocks(zs) + z.blkNum
  {
    assert (zs + [z])[..|zs|] == zs;
  }

  /** The mapping that the pool carves up: its address, bytes per block, bytes outside any block. */
  datatype Region = Region(addr: int, unit: nat, slack: nat)

  /** Both counters of the mempool match the held zones, and each zone is where its bits say. */
  ghost predicate Accounted(zs: seq<Zone>, bits: nat, free: nat, bytes: nat, g: Region) {
    && g.unit > 0
    && (forall i :: 0 <= i < |zs| ==> zs[i].begin <= zs[i].end)
    && (forall i :: 0 <= i < |zs| ==> Placed(zs[i], g))
    && free + SumLen(zs) == bits
    && bytes == free * g.unit + g.slack
  }

  predicate Placed(z: Zone, g: Region) {
    z.addr == g.addr + z.begin * g.unit
  }

  lemma AccountPush(zs: seq<Zone>, z: Zone, bits: seq<bool>, free: nat, bytes: nat, g: Region)
    requires Accounted(zs, |bits|, free, bytes, g) && Tiled(bits, zs + [z]) && Placed(z, g)
    ensures var n := z.end - z.begin + 1;
            free >= n && bytes >= g.unit * n
            && Accounted(zs + [z], |bits|, free - n, bytes - g.unit * n, g)
  {
    var n := z.end - z.begin + 1;
    assert (zs + [z])[..|zs|] == zs && (zs + [z])[|zs|] == z;
    TiledCount(bits, zs + [z]);
    ChargeStep(free, bytes, n, g.unit, g.slack);
  }

  lemma ChargeStep(free: nat, bytes: nat, n: nat, unit: nat, slack: nat)
    requires bytes == free * unit + slack && n <= free
    ensures 0 <= bytes - unit * n == (free - n) * unit + slack
  {
    Distribute(free - n, n, unit);
    assert (free - n) * unit >= 0;
  }

  lemma AccountRemove(zs: seq<Zone>, k: nat, bits: nat, free: nat, bytes: nat, g: Region)
    requires Accounted(zs, bits, free, bytes, g) && k < |zs|
    ensures var n := zs[k].end - zs[k].begin + 1;
            Accounted(Without(zs, k), bits, free + n, bytes + n * g.unit, g)
  {
    SumLenRemove(zs, k);
    Distribute(free, zs[k].end - zs[k].begin + 1, g.unit);
  }

  /** blk_num of the allocators, an int, as far as their loops count it down. */
  function Given(depth: nat): (n: nat)
    ensures n == depth <==> depth < I31
    ensures n <= depth && n < I31 && n == if depth % U32 < I31 then depth % U32 else 0
  {
    if Int32(depth) > 0 then Int32(depth) else 0
  }

  /** A pool whose blocks fit their zones.  Behind elems its table of depth entries is zero. */
  predicate PoolOk(p: Pool, unit: nat) {
    && p.blkSize > 0 && p.depth > 0
    && AllFit(p.zones, p.blkSize, unit)
    && TotalBlocks(p.zones) == Given(p.depth)
    && p.elems == Elems(p.zones, p.blkSize)
  }

  /** A pool as it was asked for: an address for every block. */
  predicate Whole(p: Pool, unit: nat) {
    PoolOk(p, unit) && |p.elems| == p.depth
  }

  predicate PoolsOk(es: seq<Entry>, unit: nat) {
    forall h :: 0 <= h < |es| && es[h].Live? ==> PoolOk(es[h].pool, unit)
  }

  /** check_mempool_real_size, on a 64-bit product. */
  predicate EnoughBytes(size: nat, depth: nat, bytes: nat) {
    size * depth % U64 <= bytes
  }

  /** Mempool blocks are counted in ints: the mapping has fewer than 2^31 of them (8 TB of 4 KB each). */
  predicate Small(bits: nat, g: Region) {
    0 < g.unit < I31 && bits + g.slack / g.unit + 1 < I31
  }

  /** mem_splited_num: pool blocks per mempool block. */
  function SplitNum(size: nat, unit: nat): (n: nat)
    requires 0 < size <= unit
    ensures n > 0
  {
    SplitFits(1, unit / size, size, unit);
    unit / size
  }

  /** That many fit a mempool block, and no more. */
  lemma SplitIs(size: nat, unit: nat)
    requires 0 < size <= unit
    ensures SplitNum(size, unit) * size <= unit < (SplitNum(size, unit) + 1) * size
  {
    var q := unit / size;
    assert q * size + unit % size == unit;
    Distribute(q, 1, size);
  }

  /** Mempool blocks needed for that many pool blocks, split to a block. */
  function Turns(blkNum: int, split: nat): (n: nat)
    requires split > 0
    decreases if blkNum > 0 then blkNum else 0
  {
    if blkNum <= 0 then 0 else 1 + Turns(blkNum - split, split)
  }

  lemma TurnsStep(blkNum: int, split: nat)
    requires split > 0
    ensures Turns(blkNum, split) == if blkNum <= 0 then 0 else 1 + Turns(blkNum - split, split)
  {
  }

  lemma {:induction false} TurnsCover(blkNum: nat, split: nat)
    requires split > 0
    ensures blkNum <= Turns(blkNum, split) * split < blkNum + split
    decreases blkNum
  {
    if blkNum > split {
      TurnsCover(blkNum - split, split);
      Distribute(Turns(blkNum - split, split), 1, split);
    } else if blkNum > 0 {
      assert Turns(blkNum - split, split) == 0;
    }
  }

  /** Runs of mempool blocks a pool needs, and how long each is. */
  function RunsNeeded(size: nat, depth: nat, unit: nat): (need: nat)
    requires size > 0 && unit > 0
  {
    if size <= unit then Turns(Int32(depth), SplitNum(size, unit)) else Given(depth)
  }

  /** Zones of one mempool block each, holding all the blocks counted. */
  ghost predicate Splits(zs: seq<Zone>, size: nat, depth: nat, unit: nat) {
    AllFit(zs, size, unit) && TotalBlocks(zs) == Given(depth) && forall i :: 0 <= i < |zs| ==> zs[i].begin == zs[i].end
  }

  lemma {:induction false} SplitTotal(zs: seq<Zone>, size: nat, unit: nat)
    requires 0 < size <= unit && AllFit(zs, size, unit) && forall i :: 0 <= i < |zs| ==> zs[i].begin == zs[i].end
    ensures TotalBlocks(zs) <= |zs| * SplitNum(size, unit)
    decreases |zs|
  {
    if zs != [] {
      var split, z := SplitNum(size, unit), Last(zs);
      SplitTotal(zs[..|zs| - 1], size, unit);
      SplitIs(size, unit);
      if z.blkNum > split { MulLe(split + 1, z.blkNum, size); }
      Distribute(|zs| - 1, 1, split);
    }
  }

  /** No way of splitting mempool blocks needs fewer of them. */
  lemma SplitLeast(zs: seq<Zone>, size: nat, depth: nat, unit: nat)
    requires 0 < size <= unit && Splits(zs, size, depth, unit)
    ensures RunsNeeded(size, depth, unit) <= |zs|
  {
    var split, need := SplitNum(size, unit), RunsNeeded(size, depth, unit);
    SplitTotal(zs, size, unit);
    if Given(depth) > 0 {
      TurnsCover(Given(depth), split);
      if need > |zs| {
        MulLe(|zs| + 1, need, split);
        Distribute(|zs|, 1, split);
      }
    }
  }

  function RunLength(size: nat, unit: nat): (n: nat)
    requires size > 0 && unit > 0
    ensures n > 0
  {
    if size <= unit then 1 else CombinedNum(size, unit)
  }

  /** The length the code searches for, an int. */
  function Width(size: nat, unit: nat): (n: int)
    requires size > 0 && unit > 0
    ensures n <= RunLength(size, unit) && (n == RunLength(size, unit) <==> RunLength(size, unit) < I31)
  {
    Int32(RunLength(size, unit))
  }

  /** A run holds a block exactly when it has that length or more. */
  lemma RunLengthIff(size: nat, unit: nat, n: nat)
    requires size > 0 && unit > 0 && n > 0
    ensures n * unit >= size <==> n >= RunLength(size, unit)
  {
    if size <= unit {
      MulLe(1, n, unit);
    } else {
      CombinedFits(size, unit);
      CombinedLeast(size, unit);
      var need := CombinedNum(size, unit);
      hide CombinedNum;
      if n >= need { MulLe(need, n, unit); } else { MulLe(n, need - 1, unit); }
    }
  }

  /** Zones of the length searched for, and of a split mempool block no more than any way of splitting needs. */
  ghost predicate Lean(zones: seq<Zone>, size: nat, depth: nat, unit: nat)
    requires size > 0 && unit > 0
  {
    && (forall i :: 0 <= i < |zones| ==> zones[i].end == zones[i].begin + Width(size, unit) - 1)
    && (size <= unit ==> Splits(zones, size, depth, unit)
                         && forall zs :: Splits(zs, size, depth, unit) ==> |zones| <= |zs|)
  }

  lemma LeanSplit(zones: seq<Zone>, size: nat, depth: nat, unit: nat)
    requires 0 < size <= unit && |zones| == RunsNeeded(size, depth, unit)
    requires AllFit(zones, size, unit) && TotalBlocks(zones) == Given(depth)
    requires forall i :: 0 <= i < |zones| ==> zones[i].begin == zones[i].end
    ensures Lean(zones, size, depth, unit)
  {
    hide RunsNeeded, AllFit, TotalBlocks;
    forall zs | Splits(zs, size, depth, unit) ensures |zones| <= |zs| {
      SplitLeast(zs, size, depth, unit);
    }
  }

  /** Space enough for a pool: the byte count, and runs enough in the bitmap, if any are searched for. */
  ghost predicate Room(b: seq<bool>, bytes: nat, size: nat, depth: nat, unit: nat)
    requires size > 0 && unit > 0
  {
    && EnoughBytes(size, depth, bytes)
    && var need := RunsNeeded(size, depth, unit);
       need == 0 || (Width(size, unit) > 0 && RunsFit(b, 0, Width(size, unit), need))
  }

  /** The search goes past the end of the bitmap, and where. */
  ghost predicate GoesPast(b: seq<bool>, bytes: nat, size: nat, depth: nat, unit: nat, zoneOk: nat -> bool)
    requires size > 0 && unit > 0
  {
    size > unit && EnoughBytes(size, depth, bytes)
    && Width(size, unit) > 0 && Overruns(b, Width(size, unit), Given(depth), zoneOk)
  }

  ghost predicate PastAt(b: seq<bool>, n: int, first: nat) {
    0 < n && first < |b| < first + n && exists k: nat :: StuckAt(b, n, k) && Tailing(b, Edge(b, n, k), first)
  }

  /** The length searched for is not positive, and there is a clear bit to find. */
  predicate NeverEnds(b: seq<bool>, bytes: nat, size: nat, depth: nat, unit: nat)
    requires size > 0 && unit > 0
  {
    size > unit && EnoughBytes(size, depth, bytes) && Given(depth) > 0 && Width(size, unit) <= 0 && false in b
  }

  /** mem_combined_num: mempool blocks per pool block. */
  function CombinedNum(size: nat, unit: nat): (n: nat)
    requires 0 < unit < size
    ensures n > 0
  {
    CombinedFits(size, unit);
    size / unit + if size % unit != 0 then 1 else 0
  }

  lemma SplitZoneFits(z: Zone, size: nat, unit: nat)
    requires 0 < size <= unit && z.begin == z.end && z.blkNum <= SplitNum(size, unit)
    ensures Fits(z, size, unit)
  {
    SplitFits(z.blkNum, unit / size, size, unit);
  }

  lemma CombinedZoneFits(z: Zone, size: nat, unit: nat)
    requires 0 < unit < size && z.begin <= z.end && z.blkNum == 1
    requires z.end - z.begin + 1 <= CombinedNum(size, unit)
    ensures Fits(z, size, unit) <==> z.end - z.begin + 1 == CombinedNum(size, unit)
  {
    CombinedFits(size, unit);
    CombinedLeast(size, unit);
    var n, m := CombinedNum(size, unit), z.end - z.begin + 1;
    hide CombinedNum;
    if m < n { MulLe(m, n - 1, unit); }
  }

  class Mempool {
    const bitmap: Bitmap
    const g: Region
    var freeBlkNum: nat
    var realSize: nat
    var entries: seq<Entry>
    /** The zones cut out of the bitmap, those of a pool under construction included. */
    ghost var held: seq<Zone>

    /** Bitmap and counters account for exactly the held zones. */
    ghost predicate Holds()
      reads this, bitmap, bitmap.words
      ensures Holds() ==> g.unit > 0 && Accounted(held, bitmap.bits, freeBlkNum, realSize, g) && Small(bitmap.bits, g)
    {
      && bitmap.Valid() && Small(bitmap.bits, g)
      && Tiled(bitmap.contents, held)
      && Accounted(held, bitmap.bits, freeBlkNum, realSize, g)
    }

    /** The held zones are those of the live pools. */
    ghost predicate Ledger()
      reads this, bitmap, bitmap.words
    {
      Holds() && held == AllZones(entries)
    }

    /** And every pool's blocks fit its zones. */
    ghost predicate Valid()
      reads this, bitmap, bitmap.words
    {
      Ledger() && PoolsOk(entries, g.unit)
    }

    constructor (g: Region, bits: nat, guard: Word)
      requires Small(bits, g)
      ensures Valid() && entries == [] && freeBlkNum == bits && realSize == bits * g.unit + g.slack
      ensures this.g == g && bitmap.contents == AllClear(bits) && fresh(bitmap) && fresh(bitmap.words)
    {
      this.g := g;
      bitmap := new Bitmap(bits, guard);
      freeBlkNum, realSize := bits, bits * g.unit + g.slack;
      entries := [];
      held := [];
    }

    method PaintBits(first: nat, last: nat, v: bool)
      requires bitmap.Valid() && first <= last < bitmap.bits
      modifies bitmap, bitmap.words
      ensures bitmap.Valid() && bitmap.contents == Paint(old(bitmap.contents), first, last, v)
    {
      ghost var was := bitmap.contents;
      for i := last + 1 downto first
        invariant bitmap.Valid() && |bitmap.contents| == |was|
        invariant forall p :: 0 <= p < |was| ==> bitmap.contents[p] == if i <= p <= last then v else was[p]
      {
        if v { bitmap.SetBit(i); } else { bitmap.ClearBit(i); }
      }
      assert bitmap.contents == Paint(was, first, last, v);
    }

    /**
    alloc_block_from_mempool.  zoneOk is the outcome of allocating the zone record;
    when it fails the bits are cleared again.
    */
    method AllocBlock(pos: nat, n: nat, blks: nat, zoneOk: bool) returns (r: RunResult, z: Zone)
      requires Holds() && n > 0
      modifies bitmap, bitmap.words
      ensures r.Run? ==> z == Zone(z.addr, blks, r.first, r.last) && Placed(z, g)
                         && r.last == r.first + n - 1 < bitmap.bits && pos <= r.first
      ensures r.Run? ==> bitmap.Valid() && Tiled(bitmap.contents, held + [z])
      ensures r.Run? ==> bitmap.contents == Paint(old(bitmap.contents), r.first, r.last, true)
      ensures r.Run? ==> zoneOk && Leftmost(old(bitmap.contents), pos, n, r.first)
      ensures r.NoMemory? ==> Holds()
      ensures !r.Run? && zoneOk ==> NoRun(old(bitmap.contents), pos, n, |old(bitmap.contents)|)
      ensures r.PastEnd? <==> Leaves(old(bitmap.contents), pos, n)
      ensures r.PastEnd? ==> n > 1 && |old(bitmap.contents)| < r.first + n
                             && Tailing(old(bitmap.contents), pos, r.first)
    {
      z := Zone(0, 0, 0, 0);
      ghost var was := bitmap.contents;
      r := FindRun(bitmap, pos, n);
      if !r.Run? { return; }
      PaintBits(r.first, r.last, true);
      z := Zone(g.addr + r.first * g.unit, blks, r.first, r.last);
      if zoneOk {
        TiledPush(was, held, z);
      } else {
        PaintBits(r.first, r.last, false);
        assert bitmap.contents == was;
        r := NoMemory;
      }
    }

    /** Cut a zone out of the bitmap and charge it to both counters. */
    method CutZone(pos: nat, n: nat, blks: nat, zoneOk: bool) returns (r: RunResult, z: Zone)
      requires Holds() && n > 0
      modifies this`freeBlkNum, this`realSize, this`held, bitmap, bitmap.words
      ensures r.Run? ==> Holds() && held == old(held) + [z]
                         && z.blkNum == blks && z.begin <= z.end == z.begin + n - 1
      ensures r.Run? ==> r == Run(z.begin, z.end) && zoneOk && pos <= z.begin
      ensures r.Run? ==> bitmap.contents == Paint(old(bitmap.contents), z.begin, z.end, true)
      ensures r.Run? ==> Leftmost(old(bitmap.contents), pos, n, z.begin)
      ensures r.NoMemory? ==> Holds() && held == old(held)
      ensures !r.Run? && zoneOk ==> NoRun(old(bitmap.contents), pos, n, |old(bitmap.contents)|)
      ensures r.PastEnd? <==> Leaves(old(bitmap.contents), pos, n)
      ensures r.PastEnd? ==> n > 1 && |old(bitmap.contents)| < r.first + n
                             && Tailing(old(bitmap.contents), pos, r.first)
    {
      hide *;
      r, z := AllocBlock(pos, n, blks, zoneOk);
      if r.Run? {
        Charge(z);
      }
    }

    /** A zone just marked is charged to both counters. */
    method Charge(z: Zone)
      requires z.begin <= z.end && bitmap.Valid() && Tiled(bitmap.contents, held + [z]) && Placed(z, g)
      requires |bitmap.contents| == bitmap.bits && Accounted(held, bitmap.bits, freeBlkNum, realSize, g)
      requires Small(bitmap.bits, g)
      modifies this`freeBlkNum, this`realSize, this`held
      ensures Holds() && held == old(held) + [z]
    {
      var n := z.end - z.begin + 1;
      AccountPush(held, z, bitmap.contents, freeBlkNum, realSize, g);
      hide Tiled, Accounted, Placed, Small;
      freeBlkNum := freeBlkNum - n;
      realSize := realSize - g.unit * n;
      held := held + [z];
    }

    /** The next zone of a pool under construction, of which `found` out of `need` are there. */
    method CutNext(ghost b0: seq<bool>, pos: nat, ghost found: nat, n: nat, blks: nat, zoneOk: bool, ghost need: nat)
      returns (r: RunResult, z: Zone)
      requires Holds() && n > 0 && found < need
      requires Searched(b0, bitmap.contents, pos, Edge(b0, n, found), n, need - found, need)
      modifies this`freeBlkNum, this`realSize, this`held, bitmap, bitmap.words
      ensures r.Run? ==> Holds() && held == old(held) + [z] && zoneOk
                         && z.blkNum == blks && z.begin <= z.end == z.begin + n - 1 == r.last
      ensures r.Run? ==> Searched(b0, bitmap.contents, r.last, Edge(b0, n, found + 1), n, need - found - 1, need)
      ensures r.NoMemory? ==> Holds() && held == old(held)
      ensures r.PastEnd? <==> StuckAt(b0, n, found)
      ensures r.PastEnd? ==> n > 1 && |b0| < r.first + n && Tailing(b0, Edge(b0, n, found), r.first)
                             && !RunsFit(b0, 0, n, need)
      ensures r.NoMemory? ==> !zoneOk || (!RunsFit(b0, 0, n, need) && Edge(b0, n, found + 1) > |b0|)
    {
      hide *;
      ghost var b, edge, left := bitmap.contents, Edge(b0, n, found), need - found;
      LeavesSame(b0, b, pos, edge, n, left, need);
      SearchedSizes(b0, b, pos, edge, n, left, need);
      StuckIs(b0, n, found);
      LeavesMeans(b, pos, n);
      r, z := CutZone(pos, n, blks, zoneOk);
      if r.Run? {
        SearchedStep(b0, b, pos, edge, n, left, need, z.begin);
        NextEdge(b0, n, found, z.begin);
      } else if r.PastEnd? || zoneOk {
        SearchedFails(b0, b, pos, edge, n, left, need);
        NoNextEdge(b0, n, found);
        if r.PastEnd? { TailingSame(b0, b, pos, edge, n, left, need, r.first); }
      }
    }

    /** Return one zone: clear its bits and credit both counters. */
    method ReturnZone(z: Zone, ghost at: nat)
      requires Holds() && at < |held| && held[at] == z
      modifies this`freeBlkNum, this`realSize, this`held, bitmap, bitmap.words
      ensures Holds() && held == Without(old(held), at)
    {
      TiledRemove(bitmap.contents, held, at);
      AccountRemove(held, at, bitmap.bits, freeBlkNum, realSize, g);
      PaintBits(z.begin, z.end, false);
      var blks := z.end - z.begin + 1;
      freeBlkNum := freeBlkNum + blks;
      realSize := realSize + blks * g.unit;
      held := Without(held, at);
    }

    /** free_mem_to_mempool_nolock: give back the zones of one pool, last one first. */
    method FreeZones(zones: seq<Zone>, ghost before: seq<Zone>, ghost after: seq<Zone>)
      requires Holds() && held == before + zones + after
      modifies this`freeBlkNum, this`realSize, this`held, bitmap, bitmap.words
      ensures Holds() && held == before + after
    {
      hide Tiled, Accounted;
      assert zones[..|zones|] == zones;
      for k := |zones| downto 0
        invariant Holds() && held == before + zones[..k] + after
      {
        ReturnZone(zones[k], |before| + k);
        assert held == before + zones[..k] + after;
      }
    }

    /** Several blocks of the pool share one mempool block. */
    method AllocMultiInOne(size: nat, depth: nat, zoneOk: nat -> bool)
      returns (zones: seq<Zone>, st: Status)
      requires Holds() && 0 < size <= g.unit && depth > 0
      modifies this`freeBlkNum, this`realSize, this`held, bitmap, bitmap.words
      ensures Holds() && (st.Done? || st.OutOfMemory?)
      ensures st.Done? ==> held == old(held) + zones && TotalBlocks(zones) == Given(depth)
                           && AllFit(zones, size, g.unit) && Lean(zones, size, depth, g.unit)
      ensures st.OutOfMemory? ==> held == old(held)
      ensures st.Done? <==> Room(old(bitmap.contents), old(realSize), size, depth, g.unit)
                            && forall k: nat :: k < RunsNeeded(size, depth, g.unit) ==> zoneOk(k)
    {
      hide Tiled, Accounted, Searched, RunsFit, NoRun, FreeRun, Leftmost, Turns, Edge, StuckAt, Small, Int32;
      ghost var b0 := bitmap.contents;
      ghost var need: nat := RunsNeeded(size, depth, g.unit);
      SearchedStart(b0, 1, need);
      var split := SplitNum(size, g.unit);
      var blkNum: int := Int32(depth);
      var pos: nat := 0;
      zones := [];
      if !EnoughBytes(size, depth, realSize) { return [], OutOfMemory; }
      while blkNum > 0
        invariant Holds() && held == old(held) + zones
        invariant TotalBlocks(zones) + (if blkNum > 0 then blkNum else 0) == Given(depth)
        invariant AllFit(zones, size, g.unit) && forall i :: 0 <= i < |zones| ==> zones[i].begin == zones[i].end
        invariant |zones| + Turns(blkNum, split) == need
        invariant Searched(b0, bitmap.contents, pos, Edge(b0, 1, |zones|), 1, Turns(blkNum, split), need)
        invariant forall k: nat :: k < |zones| ==> zoneOk(k)
      {
        TurnsStep(blkNum, split);
        var blks := if blkNum < split then blkNum else split;
        var r, z := CutNext(b0, pos, |zones|, 1, blks, zoneOk(|zones|), need);
        if !r.Run? {
          FreeZones(zones, old(held), []);
          return [], OutOfMemory;
        }
        SplitZoneFits(z, size, g.unit);
        PushZone(zones, z, size, g.unit);
        zones := zones + [z];
        blkNum := blkNum - split;
        pos := r.last;
      }
      TurnsStep(blkNum, split);
      SearchedAll(b0, bitmap.contents, pos, Edge(b0, 1, |zones|), 1, need);
      LeanSplit(zones, size, depth, g.unit);
      st := Done;
    }

    /** alloc_mem_one_need_multi: one block of the pool needs several adjoining mempool blocks. */
    method AllocOneNeedMulti(size: nat, depth: nat, zoneOk: nat -> bool)
      returns (zones: seq<Zone>, st: Status)
      requires Holds() && g.unit < size && depth > 0
      modifies this`freeBlkNum, this`realSize, this`held, bitmap, bitmap.words
      ensures !st.Overran? ==> Holds()
      ensures st.Done? ==> held == old(held) + zones && TotalBlocks(zones) == Given(depth)
                           && Lean(zones, size, depth, g.unit)
      ensures st.Done? ==> (AllFit(zones, size, g.unit)
                            <==> Given(depth) == 0 || Width(size, g.unit) == RunLength(size, g.unit))
      ensures st.OutOfMemory? || st.Hangs? ==> held == old(held)
      ensures st.Done? <==> Room(old(bitmap.contents), old(realSize), size, depth, g.unit)
                            && forall k: nat :: k < RunsNeeded(size, depth, g.unit) ==> zoneOk(k)
      ensures st.Overran? <==> GoesPast(old(bitmap.contents), old(realSize), size, depth, g.unit, zoneOk)
      ensures st.Overran? ==> PastAt(old(bitmap.contents), Width(size, g.unit), st.first)
      ensures st.Hangs? <==> NeverEnds(old(bitmap.contents), old(realSize), size, depth, g.unit)
    {
      hide Tiled, Accounted, RunsFit, CombinedNum, Overruns, Small, Int32, EnoughBytes, Edge, StuckAt, Tailing;
      zones := [];
      var n, blkNum := Width(size, g.unit), Int32(depth);
      if !EnoughBytes(size, depth, realSize) { return [], OutOfMemory; }
      if blkNum <= 0 {
        NoNeed(bitmap.contents, n, zoneOk);
        return [], Done;
      }
      if n <= 0 {
        // the inner loop never runs, and its counter never meets n - 1
        var first := bitmap.FindNextZeroBit(0);
        ClearBitAt(bitmap.contents);
        return [], if first == bitmap.bits then OutOfMemory else Hangs;
      }
      zones, st := CutRuns(size, n, blkNum, zoneOk);
    }

    /** Its loop, for a positive number of runs of a positive length. */
    method CutRuns(size: nat, n: nat, depth: nat, zoneOk: nat -> bool) returns (zones: seq<Zone>, st: Status)
      requires Holds() && g.unit < size && 0 < n <= CombinedNum(size, g.unit) && depth > 0
      modifies this`freeBlkNum, this`realSize, this`held, bitmap, bitmap.words
      ensures !st.Overran? ==> Holds() && (st.Done? || st.OutOfMemory?)
      ensures st.Done? ==> forall i :: 0 <= i < |zones| ==> zones[i].end == zones[i].begin + n - 1
      ensures st.Done? ==> held == old(held) + zones && TotalBlocks(zones) == depth
                           && (AllFit(zones, size, g.unit) <==> n == CombinedNum(size, g.unit))
      ensures st.OutOfMemory? ==> held == old(held)
      ensures st.Done? <==> RunsFit(old(bitmap.contents), 0, n, depth) && forall k: nat :: k < depth ==> zoneOk(k)
      ensures st.Overran? <==> Overruns(old(bitmap.contents), n, depth, zoneOk)
      ensures st.Overran? ==> PastAt(old(bitmap.contents), n, st.first)
    {
      hide Tiled, Accounted, Searched, RunsFit, NoRun, FreeRun, Leftmost, CombinedNum, Edge, StuckAt, Overruns, Small;
      hide Tailing, Fits, AllFit, TotalBlocks;
      ghost var b0 := bitmap.contents;
      SearchedStart(b0, n, depth);
      NoZones(size, g.unit);
      var blkNum := depth;
      var pos: nat := 0;
      zones := [];
      while blkNum > 0
        invariant Holds() && held == old(held) + zones
        invariant TotalBlocks(zones) + blkNum == depth
        invariant AllFit(zones, size, g.unit) <==> zones == [] || n == CombinedNum(size, g.unit)
        invariant |zones| + blkNum == depth && forall i :: 0 <= i < |zones| ==> zones[i].end == zones[i].begin + n - 1
        invariant Searched(b0, bitmap.contents, pos, Edge(b0, n, |zones|), n, blkNum, depth)
        invariant forall k: nat :: k < |zones| ==> zoneOk(k) && !StuckAt(b0, n, k)
      {
        var r, z := CutNext(b0, pos, |zones|, n, 1, zoneOk(|zones|), depth);
        if r.PastEnd? {
          OverrunsAt(b0, n, depth, zoneOk, |zones|);
          PastHere(b0, n, |zones|, r.first);
          return [], Overran(r.first);
        }
        if !r.Run? {
          NeverOverruns(b0, n, depth, zoneOk, |zones|);
          FreeZones(zones, old(held), []);
          return [], OutOfMemory;
        }
        CombinedZoneFits(z, size, g.unit);
        PushOne(zones, z, size, g.unit);
        zones := zones + [z];
        pos := r.last;
        blkNum := blkNum - 1;
      }
      SearchedAll(b0, bitmap.contents, pos, Edge(b0, n, |zones|), n, depth);
      NeverOverruns(b0, n, depth, zoneOk, depth - 1);
      st := Done;
    }

    /** alloc_mem_from_mempool, and the rollback when the address table cannot be allocated. */
    method AllocMem(size: nat, depth: nat, zoneOk: nat -> bool, elemOk: bool)
      returns (zones: seq<Zone>, st: Status)
      requires Holds() && size > 0 && depth > 0
      modifies this`freeBlkNum, this`realSize, this`held, bitmap, bitmap.words
      ensures !st.Overran? ==> Holds()
      ensures st.Done? ==> held == old(held) + zones && TotalBlocks(zones) == Given(depth)
                           && Lean(zones, size, depth, g.unit)
      ensures st.Done? ==> (AllFit(zones, size, g.unit)
                            <==> Given(depth) == 0 || Width(size, g.unit) == RunLength(size, g.unit))
      ensures st.OutOfMemory? || st.Hangs? ==> held == old(held)
      ensures st.Overran? <==> GoesPast(old(bitmap.contents), old(realSize), size, depth, g.unit, zoneOk)
      ensures st.Overran? ==> PastAt(old(bitmap.contents), Width(size, g.unit), st.first)
      ensures st.Hangs? <==> NeverEnds(old(bitmap.contents), old(realSize), size, depth, g.unit)
      ensures st.Done? <==> Room(old(bitmap.contents), old(realSize), size, depth, g.unit) && elemOk
                            && forall k: nat :: k < RunsNeeded(size, depth, g.unit) ==> zoneOk(k)
    {
      hide Tiled, Accounted, AllFit, TotalBlocks, Room, RunsNeeded, Overruns, EnoughBytes, Small, PastAt, Width, Lean;
      hide Int32, Given;
      if g.unit >= size {
        zones, st := AllocMultiInOne(size, depth, zoneOk);
      } else {
        zones, st := AllocOneNeedMulti(size, depth, zoneOk);
      }
      if st.Done? && !elemOk {
        FreeZones(zones, old(held), []);
        assert held == old(held);
        st := OutOfMemory;
      }
    }

    /**
    wd_blockpool_create; the flags are the outcomes of the memory allocations it makes.
    The pool it returns is as it was asked for exactly when neither the depth nor the
    number of bytes outgrew its integer.
    */
    method Create(size: nat, depth: nat, poolOk: bool, zoneOk: nat -> bool, elemOk: bool)
      returns (st: Status)
      requires Ledger()
      modifies this`freeBlkNum, this`realSize, this`held, this`entries, bitmap, bitmap.words
      ensures st.Done? <==>
        && size > 0 && depth > 0 && poolOk && elemOk
        && Room(old(bitmap.contents), old(realSize), size, depth, g.unit)
        && forall k: nat :: k < RunsNeeded(size, depth, g.unit) ==> zoneOk(k)
      ensures st.Done? ==> Ledger() && Created(old(entries), entries, size, depth)
      ensures st.Done? ==> Lean(entries[|entries| - 1].pool.zones, size, depth, g.unit)
      ensures st.Done? ==> (Whole(entries[|entries| - 1].pool, g.unit) <==> depth < I31 && size * depth < U64)
      ensures st.Done? ==> (Valid() <==> old(Valid())
                                         && (Given(depth) == 0 || Width(size, g.unit) == RunLength(size, g.unit)))
      ensures st.OutOfMemory? || st.Hangs? ==>
        && Ledger() && entries == old(entries) && bitmap.contents == old(bitmap.contents)
        && (freeBlkNum, realSize) == old((freeBlkNum, realSize))
      ensures st.Overran? <==>
        size > 0 && depth > 0 && poolOk && GoesPast(old(bitmap.contents), old(realSize), size, depth, g.unit, zoneOk)
      ensures st.Overran? ==> PastAt(old(bitmap.contents), Width(size, g.unit), st.first)
      ensures st.Hangs? <==>
        size > 0 && depth > 0 && poolOk && NeverEnds(old(bitmap.contents), old(realSize), size, depth, g.unit)
    {
      hide *;
      if size == 0 || depth == 0 || !poolOk { return OutOfMemory; }
      LedgerParts();
      HoldsParts();
      var zones;
      zones, st := AllocMem(size, depth, zoneOk, elemOk);
      if st.Overran? { return; }
      if st.OutOfMemory? || st.Hangs? {
        HoldsParts();
        SameLedger(held, bitmap.bits, old(freeBlkNum), old(realSize), freeBlkNum, realSize, g);
        Determined(old(bitmap.contents), bitmap.contents, held);
        LedgerParts();
        return;
      }
      RoomBytes(old(bitmap.contents), old(realSize), size, depth, g.unit);
      AddPool(size, depth, zones, old(freeBlkNum), old(realSize));
      LedgerParts();
    }

    lemma LedgerParts()
      ensures Ledger() <==> Holds() && held == AllZones(entries)
      ensures Valid() <==> Ledger() && PoolsOk(entries, g.unit)
    {
    }

    lemma HoldsParts()
      requires Holds()
      ensures Tiled(bitmap.contents, held) && Accounted(held, bitmap.bits, freeBlkNum, realSize, g)
      ensures |bitmap.contents| == bitmap.bits && g.unit > 0
    {
    }

    /** The zones just cut become the new last pool, with its table of block addresses. */
    method AddPool(size: nat, depth: nat, zones: seq<Zone>, ghost free: nat, ghost bytes: nat)
      requires Holds() && held == AllZones(entries) + zones && size > 0 && depth > 0
               && TotalBlocks(zones) == Given(depth)
      requires AllFit(zones, size, g.unit) <==> Given(depth) == 0 || Width(size, g.unit) == RunLength(size, g.unit)
      requires Accounted(AllZones(entries), bitmap.bits, free, bytes, g) && EnoughBytes(size, depth, bytes)
      requires Lean(zones, size, depth, g.unit)
      modifies this`entries
      ensures |entries| > 0 && entries[|entries| - 1].Live? && entries[|entries| - 1].pool.zones == zones
      ensures Ledger() && Created(old(entries), entries, size, depth)
      ensures Whole(entries[|entries| - 1].pool, g.unit) <==> depth < I31 && size * depth < U64
      ensures PoolsOk(entries, g.unit) <==>
        PoolsOk(old(entries), g.unit) && (Given(depth) == 0 || Width(size, g.unit) == RunLength(size, g.unit))
    {
      hide Tiled, Accounted, AllFit, TotalBlocks, Elems, Width, RunLength, Int32, Given, Small, EnoughBytes, Lean;
      var elems := InitElems(zones, size);
      var p := Pool(size, depth, zones, elems);
      assert (entries + [Live(p)])[..|entries|] == entries;
      ZonesBound(AllZones(entries), zones, bitmap.bits, free, bytes, freeBlkNum, realSize, g);
      WholeIff(zones, bitmap.bits, free, bytes, g, size, depth);
      entries := entries + [Live(p)];
    }

    /** wd_blockpool_destroy once every block is back. */
    method Destroy(h: nat)
      requires Ledger() && h < |entries| && entries[h].Live?
      modifies this`freeBlkNum, this`realSize, this`held, this`entries, bitmap, bitmap.words
      ensures Ledger() && entries == old(entries)[h := Gone]
      ensures old(Valid()) ==> Valid()
    {
      hide Tiled, Accounted, PoolOk, AllZones, Small;
      var zones := entries[h].pool.zones;
      ghost var before, after := AllZones(entries[..h]), AllZones(entries[h + 1..]);
      SplitAt(entries, h);
      DropEntry(entries, h);
      FreeZones(zones, before, after);
      entries := entries[h := Gone];
    }
  }

  /** A creation adds one live pool of the requested shape, with the block addresses given to it. */
  ghost predicate Created(was: seq<Entry>, now: seq<Entry>, size: nat, depth: nat) {
    && |now| == |was| + 1 && now[..|was|] == was && now[|was|].Live?
    && var p := now[|was|].pool; p.blkSize == size && p.depth == depth && |p.elems| == Given(depth)
  }

  lemma {:induction false} SplitAt(es: seq<Entry>, h: nat)
    requires h < |es|
    ensures AllZones(es) == AllZones(es[..h]) + ZonesOf(es[h]) + AllZones(es[h + 1..])
    decreases |es|
  {
    var n := |es| - 1;
    var rest := es[h + 1..];
    if h == n {
      assert rest == [];
      assert AllZones(es) == AllZones(es[..h]) + ZonesOf(es[h]) + [];
    } else {
      var front := es[..n];
      SplitAt(front, h);
      assert front[..h] == es[..h] && front[h] == es[h];
      assert rest[..|rest| - 1] == front[h + 1..] && rest[|rest| - 1] == es[n];
      Regroup(AllZones(es[..h]), ZonesOf(es[h]), AllZones(front[h + 1..]), ZonesOf(es[n]));
    }
  }

  /** Emptying a slot takes its zones out of the list. */
  lemma DropEntry(es: seq<Entry>, h: nat)
    requires h < |es|
    ensures AllZones(es[h := Gone]) == AllZones(es[..h]) + AllZones(es[h + 1..])
  {
    var es' := es[h := Gone];
    SplitAt(es', h);
    assert es'[..h] == es[..h] && es'[h + 1..] == es[h + 1..];
    assert AllZones(es[..h]) + [] == AllZones(es[..h]);
  }

  /** The zones determine both counters, and the bitmap. */
  lemma SameLedger(zs: seq<Zone>, bits: nat, free: nat, bytes: nat, free': nat, bytes': nat, g: Region)
    requires Accounted(zs, bits, free, bytes, g) && Accounted(zs, bits, free', bytes', g)
    ensures free == free' && bytes == bytes'
  {
  }

  lemma Determined(a: seq<bool>, b: seq<bool>, zs: seq<Zone>)
    requires Tiled(a, zs) && Tiled(b, zs) && |a| == |b|
    ensures a == b
  {
  }

  /** init_blkpool_elem: walk the zones, then the blocks of each. */
  method InitElems(zones: seq<Zone>, size: nat) returns (elems: seq<int>)
    ensures elems == Elems(zones, size)
  {
    elems := [];
    for k := 0 to |zones|
      invariant elems == Elems(zones[..k], size)
    {
      var z := zones[k];
      ghost var was := elems;
      for i := 0 to z.blkNum
        invariant elems == was + seq(i, j => z.addr + j * size)
      {
        elems := elems + [z.addr + i * size];
      }
      assert zones[..k + 1][..k] == zones[..k];
    }
    assert zones[..|zones|] == zones;
  }

  lemma NoNeed(b: seq<bool>, n: int, zoneOk: nat -> bool)
    ensures n > 0 ==> !Overruns(b, n, 0, zoneOk)
  {
  }

  lemma ClearBitAt(b: seq<bool>)
    ensures NextZero(b, 0) == |b| <==> false !in b
  {
    if false in b {
      var p :| 0 <= p < |b| && !b[p];
    }
  }

  lemma PastHere(b: seq<bool>, n: nat, k: nat, first: nat)
    requires n > 0 && StuckAt(b, n, k) && Tailing(b, Edge(b, n, k), first) && |b| < first + n
    ensures PastAt(b, n, first)
  {
  }

  lemma RoomBytes(b: seq<bool>, bytes: nat, size: nat, depth: nat, unit: nat)
    requires size > 0 && unit > 0 && Room(b, bytes, size, depth, unit)
    ensures EnoughBytes(size, depth, bytes)
  {
  }

  lemma NoZones(size: nat, unit: nat)
    ensures AllFit([], size, unit) && TotalBlocks([]) == 0
  {
  }

  lemma PushOne(zs: seq<Zone>, z: Zone, size: nat, unit: nat)
    requires z.blkNum == 1
    ensures TotalBlocks(zs + [z]) == TotalBlocks(zs) + 1
    ensures AllFit(zs + [z], size, unit) <==> AllFit(zs, size, unit) && Fits(z, size, unit)
  {
    var all := zs + [z];
    assert all[..|zs|] == zs && all[|zs|] == z;
    assert forall i :: 0 <= i < |zs| ==> all[i] == zs[i];
    hide Fits;
  }

  /** The blocks of fitting zones take no more bytes than the zones have. */
  lemma {:induction false} FittingBytes(zs: seq<Zone>, size: nat, unit: nat)
    requires AllFit(zs, size, unit)
    ensures forall i :: 0 <= i < |zs| ==> zs[i].begin <= zs[i].end
    ensures TotalBlocks(zs) * size <= SumLen(zs) * unit
    decreases |zs|
  {
    if zs != [] {
      var front, z := zs[..|zs| - 1], Last(zs);
      FittingBytes(front, size, unit);
      Distribute(TotalBlocks(front), z.blkNum, size);
      Distribute(SumLen(front), z.end - z.begin + 1, unit);
    }
  }

  /** A byte count that did not wrap bounds the run to be searched for. */
  lemma WidthFits(size: nat, depth: nat, bits: nat, free: nat, bytes: nat, g: Region)
    requires Small(bits, g) && size > 0 && depth > 0 && size * depth < U64 && EnoughBytes(size, depth, bytes)
    requires free <= bits && bytes == free * g.unit + g.slack
    ensures Width(size, g.unit) == RunLength(size, g.unit)
  {
    MulLe(1, depth, size);
    MulLe(free, bits, g.unit);
    assert size <= bytes;
    if size > g.unit {
      var q := g.slack / g.unit;
      assert g.slack < (q + 1) * g.unit;
      Distribute(bits, q + 1, g.unit);
      var n := CombinedNum(size, g.unit);
      CombinedLeast(size, g.unit);
      hide CombinedNum, Int32;
      if n - 1 >= bits + q + 1 { MulLe(bits + q + 1, n - 1, g.unit); }
    }
  }

  lemma {:induction false} SumLenConcat(a: seq<Zone>, b: seq<Zone>)
    requires forall i :: 0 <= i < |a + b| ==> (a + b)[i].begin <= (a + b)[i].end
    ensures forall i :: 0 <= i < |a| ==> a[i].begin <= a[i].end
    ensures forall i :: 0 <= i < |b| ==> b[i].begin <= b[i].end
    ensures SumLen(a + b) == SumLen(a) + SumLen(b)
    decreases |b|
  {
    assert forall i :: 0 <= i < |a| ==> (a + b)[i] == a[i];
    assert forall i :: 0 <= i < |b| ==> (a + b)[|a| + i] == b[i];
    if b == [] {
      assert a + b == a;
    } else {
      assert (a + b)[..|a + b| - 1] == a + b[..|b| - 1];
      SumLenConcat(a, b[..|b| - 1]);
    }
  }

  lemma ZonesBound(all: seq<Zone>, zones: seq<Zone>, bits: nat, free: nat, bytes: nat,
                   free': nat, bytes': nat, g: Region)
    requires Accounted(all, bits, free, bytes, g) && Accounted(all + zones, bits, free', bytes', g)
    ensures forall i :: 0 <= i < |zones| ==> zones[i].begin <= zones[i].end
    ensures SumLen(zones) <= bits && free <= bits && bytes == free * g.unit + g.slack
  {
    SumLenConcat(all, zones);
  }

  /** A new pool has an address for every block, each in its zone, exactly when neither integer was outgrown. */
  lemma WholeIff(zones: seq<Zone>, bits: nat, free: nat, bytes: nat, g: Region, size: nat, depth: nat)
    requires Small(bits, g) && size > 0 && depth > 0 && TotalBlocks(zones) == Given(depth)
    requires forall i :: 0 <= i < |zones| ==> zones[i].begin <= zones[i].end
    requires SumLen(zones) <= bits && free <= bits && bytes == free * g.unit + g.slack
             && EnoughBytes(size, depth, bytes)
    requires AllFit(zones, size, g.unit) <==> Given(depth) == 0 || Width(size, g.unit) == RunLength(size, g.unit)
    ensures AllFit(zones, size, g.unit) && Given(depth) == depth <==> depth < I31 && size * depth < U64
  {
    hide *;
    SmallUnit(bits, g);
    if AllFit(zones, size, g.unit) && Given(depth) == depth {
      NoWrap(zones, bits, g, size, depth);
    }
    if size * depth < U64 {
      WidthFits(size, depth, bits, free, bytes, g);
    }
  }

  lemma SmallUnit(bits: nat, g: Region)
    requires Small(bits, g)
    ensures 0 < g.unit < I31 && bits < I31
  {
    assert g.slack / g.unit >= 0;
  }

  lemma NoWrap(zones: seq<Zone>, bits: nat, g: Region, size: nat, depth: nat)
    requires 0 < g.unit < I31 && bits < I31 && AllFit(zones, size, g.unit) && TotalBlocks(zones) == depth
    requires forall i :: 0 <= i < |zones| ==> zones[i].begin <= zones[i].end
    requires SumLen(zones) <= bits
    ensures size * depth < U64
  {
    FittingBytes(zones, size, g.unit);
    hide AllFit, TotalBlocks, SumLen;
    MulLe(SumLen(zones), bits, g.unit);
    MulLe(g.unit, I31, bits);
    assert size * depth == depth * size <= bits * I31;
  }

  lemma SplitFits(blks: nat, split: nat, size: nat, unit: nat)
    requires 0 < size <= unit && split == unit / size && blks <= split
    ensures split > 0 && blks * size <= 1 * unit
  {
    assert split * size + unit % size == unit;
    assert (split - blks) * size >= 0;
    Distribute(split - blks, blks, size);
  }

  lemma CombinedFits(size: nat, unit: nat)
    requires 0 < unit < size
    ensures var n := size / unit + if size % unit != 0 then 1 else 0; n > 0 && 1 * size <= n * unit
  {
    var q := size / unit;
    assert q * unit + size % unit == size;
    Distribute(q, 1, unit);
  }

  // ---------- blocks in memory ----------

  /** Block i of a pool is block j of its zone k. */
  lemma {:induction false} ElemZone(zs: seq<Zone>, size: nat, i: nat) returns (k: nat, j: nat)
    requires i < |Elems(zs, size)|
    ensures k < |zs| && j < zs[k].blkNum && i == TotalBlocks(zs[..k]) + j
    ensures Elems(zs, size)[i] == zs[k].addr + j * size
  {
    var front := zs[..|zs| - 1];
    if i < TotalBlocks(front) {
      k, j := ElemZone(front, size, i);
      assert front[..k] == zs[..k];
    } else {
      k, j := |zs| - 1, i - TotalBlocks(front);
    }
  }

  /** A block lies inside the bytes of its zone. */
  lemma BlockInZone(z: Zone, j: nat, size: nat, g: Region)
    requires Placed(z, g) && Fits(z, size, g.unit) && j < z.blkNum
    ensures g.addr + z.begin * g.unit <= z.addr + j * size
    ensures z.addr + j * size + size <= g.addr + (z.end + 1) * g.unit
  {
    MulLe(0, j, size);
    MulLe(j + 1, z.blkNum, size);
    Distribute(j, 1, size);
    Distribute(z.begin, z.end - z.begin + 1, g.unit);
  }

  predicate Disjoint(a: int, n: nat, b: int, m: nat) {
    a + n <= b || b + m <= a
  }

  lemma ZonesApart(z: Zone, j: nat, size: nat, z': Zone, j': nat, size': nat, g: Region)
    requires Placed(z, g) && Fits(z, size, g.unit) && j < z.blkNum
    requires Placed(z', g) && Fits(z', size', g.unit) && j' < z'.blkNum
    requires Apart(z, z')
    ensures Disjoint(z.addr + j * size, size, z'.addr + j' * size', size')
  {
    BlockInZone(z, j, size, g);
    BlockInZone(z', j', size', g);
    if z.end < z'.begin {
      MulLe(z.end + 1, z'.begin, g.unit);
    } else {
      MulLe(z'.end + 1, z.begin, g.unit);
    }
  }

  lemma SameZoneApart(addr: int, j: nat, j': nat, size: nat)
    requires j != j'
    ensures Disjoint(addr + j * size, size, addr + j' * size, size)
  {
    var lo, hi := if j < j' then j else j', if j < j' then j' else j;
    MulLe(lo + 1, hi, size);
    Distribute(lo, 1, size);
  }

  /** Where zone k of pool h stands in the list of all zones. */
  ghost function ZoneIndex(es: seq<Entry>, h: nat, k: nat): nat
    requires h < |es|
  {
    |AllZones(es[..h])| + k
  }

  lemma ZoneAt(es: seq<Entry>, h: nat, k: nat)
    requires h < |es| && k < |ZonesOf(es[h])|
    ensures ZoneIndex(es, h, k) < |AllZones(es)| && AllZones(es)[ZoneIndex(es, h, k)] == ZonesOf(es[h])[k]
  {
    hide AllZones;
    SplitAt(es, h);
  }

  lemma {:induction false} PrefixGrows(es: seq<Entry>, h: nat, h': nat)
    requires h < h' <= |es|
    ensures |AllZones(es[..h])| + |ZonesOf(es[h])| <= |AllZones(es[..h'])|
  {
    var front := es[..h'];
    assert front[..h' - 1] == es[..h' - 1];
    if h < h' - 1 { PrefixGrows(es, h, h' - 1); }
  }

  /** One live block: pool h, its block i, found in zone k at offset j. */
  ghost predicate Located(es: seq<Entry>, h: nat, i: nat, k: nat, j: nat) {
    && h < |es| && es[h].Live? && k < |es[h].pool.zones| && j < es[h].pool.zones[k].blkNum
    && i < |es[h].pool.elems| && i == TotalBlocks(es[h].pool.zones[..k]) + j
    && es[h].pool.elems[i] == es[h].pool.zones[k].addr + j * es[h].pool.blkSize
  }

  lemma Distinct(es: seq<Entry>, h: nat, i: nat, k: nat, j: nat, h': nat, i': nat, k': nat, j': nat,
                 bits: seq<bool>, g: Region)
    requires Located(es, h, i, k, j) && Located(es, h', i', k', j') && (h, i) != (h', i')
    requires Tiled(bits, AllZones(es)) && forall n :: 0 <= n < |AllZones(es)| ==> Placed(AllZones(es)[n], g)
    requires PoolOk(es[h].pool, g.unit) && PoolOk(es[h'].pool, g.unit)
    ensures Disjoint(es[h].pool.elems[i], es[h].pool.blkSize, es[h'].pool.elems[i'], es[h'].pool.blkSize)
  {
    hide Elems, Tiled, AllZones, TotalBlocks, Placed, Fits, Disjoint, Apart;
    ZoneAt(es, h, k);
    ZoneAt(es, h', k');
    var p, p' := es[h].pool, es[h'].pool;
    if h == h' && k == k' {
      SameZoneApart(p.zones[k].addr, j, j', p.blkSize);
    } else {
      OtherZone(es, h, k, h', k', bits);
      ZonesApart(p.zones[k], j, p.blkSize, p'.zones[k'], j', p'.blkSize, g);
    }
  }

  /** Two different zones of live pools cover no common bit. */
  lemma OtherZone(es: seq<Entry>, h: nat, k: nat, h': nat, k': nat, bits: seq<bool>)
    requires Tiled(bits, AllZones(es)) && h < |es| && h' < |es| && (h, k) != (h', k')
    requires k < |ZonesOf(es[h])| && k' < |ZonesOf(es[h'])|
    ensures Apart(ZonesOf(es[h])[k], ZonesOf(es[h'])[k'])
  {
    hide AllZones, Occupied;
    ZoneAt(es, h, k);
    ZoneAt(es, h', k');
    if h < h' { PrefixGrows(es, h, h'); } else if h' < h { PrefixGrows(es, h', h); }
    var a, b := ZoneIndex(es, h, k), ZoneIndex(es, h', k');
    assert if a < b then Apart(AllZones(es)[a], AllZones(es)[b]) else Apart(AllZones(es)[b], AllZones(es)[a]);
  }

  lemma Locate(es: seq<Entry>, h: nat, i: nat, unit: nat) returns (k: nat, j: nat)
    requires h < |es| && es[h].Live? && PoolOk(es[h].pool, unit) && i < |es[h].pool.elems|
    ensures Located(es, h, i, k, j)
  {
    hide Fits;
    k, j := ElemZone(es[h].pool.zones, es[h].pool.blkSize, i);
  }

  /** Every block lies inside the mapping. */
  lemma BlockInRegion(es: seq<Entry>, bits: seq<bool>, free: nat, bytes: nat, g: Region, h: nat, i: nat)
    requires Tiled(bits, AllZones(es)) && Accounted(AllZones(es), |bits|, free, bytes, g)
    requires h < |es| && es[h].Live? && PoolOk(es[h].pool, g.unit) && i < |es[h].pool.elems|
    ensures g.addr <= es[h].pool.elems[i]
    ensures es[h].pool.elems[i] + es[h].pool.blkSize <= g.addr + |bits| * g.unit
  {
    hide TotalBlocks, Elems, Occupied, SumLen;
    var k, j := Locate(es, h, i, g.unit);
    ZoneAt(es, h, k);
    var z := es[h].pool.zones[k];
    BlockInZone(z, j, es[h].pool.blkSize, g);
    MulLe(0, z.begin, g.unit);
    MulLe(z.end + 1, |bits|, g.unit);
  }

  /** All bytes of a block lie in the mapping, whose slack follows the last mempool block. */
  predicate InMapping(addr: int, size: nat, bits: nat, g: Region) {
    g.addr <= addr && addr + size <= g.addr + bits * g.unit + g.slack
  }

  /**
  The block that the code would hand out after the scan has left the bitmap ends behind
  the last mempool block, and lies in the mapping exactly when what is missing fits the slack.
  */
  lemma OverrunBlock(size: nat, first: nat, bits: nat, g: Region)
    requires 0 < g.unit < size && first < bits < first + RunLength(size, g.unit)
    ensures g.addr + first * g.unit + size > g.addr + bits * g.unit
    ensures InMapping(g.addr + first * g.unit, size, bits, g) <==> size - (bits - first) * g.unit <= g.slack
  {
    var n := CombinedNum(size, g.unit);
    assert (n - 1) * g.unit < size by { CombinedLeast(size, g.unit); }
    Distribute(first, n - 1, g.unit);
    MulLe(bits, first + n - 1, g.unit);
    Distribute(bits - first, first, g.unit);
    MulLe(0, first, g.unit);
    hide CombinedNum;
  }

  lemma CombinedLeast(size: nat, unit: nat)
    requires 0 < unit < size
    ensures (CombinedNum(size, unit) - 1) * unit < size
  {
    var q, m := size / unit, size % unit;
    assert size == q * unit + m;
    Distribute(q - 1, 1, unit);
  }

  /** No two blocks of any live pools overlap. */
  lemma BlocksNeverOverlap(es: seq<Entry>, bits: seq<bool>, free: nat, bytes: nat, g: Region,
                           h: nat, i: nat, h': nat, i': nat)
    requires Tiled(bits, AllZones(es)) && Accounted(AllZones(es), |bits|, free, bytes, g)
    requires h < |es| && es[h].Live? && PoolOk(es[h].pool, g.unit) && i < |es[h].pool.elems|
    requires h' < |es| && es[h'].Live? && PoolOk(es[h'].pool, g.unit) && i' < |es[h'].pool.elems|
    requires (h, i) != (h', i')
    ensures Disjoint(es[h].pool.elems[i], es[h].pool.blkSize, es[h'].pool.elems[i'], es[h'].pool.blkSize)
  {
    hide TotalBlocks, Elems, Occupied, SumLen, Tiled, AllFit;
    var k, j := Locate(es, h, i, g.unit);
    var k', j' := Locate(es, h', i', g.unit);
    Distinct(es, h, i, k, j, h', i', k', j', bits, g);
  }

  // ---------- fresh pools ----------

  lemma {:induction false} FreshEdge(bits: nat, n: nat, k: nat)
    requires n > 0 && k * n <= bits
    ensures Edge(AllClear(bits), n, k) == k * n
    decreases k
  {
    if k > 0 {
      Distribute(k - 1, 1, n);
      FreshEdge(bits, n, k - 1);
      assert FreeRun(AllClear(bits), (k - 1) * n, n);
    }
  }

  /** In a fresh bitmap the scan leaves after the last full run, and only if the run length does not divide the bits. */
  lemma FreshStuck(bits: nat, n: nat, k: nat)
    requires n > 0
    ensures StuckAt(AllClear(bits), n, k) <==> k == bits / n && bits % n != 0
  {
    var b, q := AllClear(bits), bits / n;
    assert q * n + bits % n == bits;
    if k < q {
      MulLe(k + 1, q, n);
      Distribute(k, 1, n);
      FreshEdge(bits, n, k);
      assert FreeRun(b, k * n, n);
    } else {
      FreshEdge(bits, n, q);
      hide Edge;
      forall s: nat | q * n <= s ensures !FreeRun(b, s, n) { }
      if k > q {
        NoNextEdge(b, n, q);
        EdgeGone(b, n, q + 1, k);
      }
    }
  }

  /** So a fresh pool is overrun exactly when more runs are needed than fit, and the bits are no multiple of a run. */
  lemma FreshOverruns(bits: nat, n: nat, need: nat)
    requires n > 0
    ensures Overruns(AllClear(bits), n, need, _ => true) <==> need > bits / n && bits % n != 0
  {
    FreshStuck(bits, n, bits / n);
    forall k: nat ensures StuckAt(AllClear(bits), n, k) <==> k == bits / n && bits % n != 0 {
      FreshStuck(bits, n, k);
    }
    hide StuckAt;
    if need > bits / n && bits % n != 0 {
      OverrunsAt(AllClear(bits), n, need, _ => true, bits / n);
    }
  }

  lemma {:induction false} FreshFits(bits: nat, pos: nat, n: nat, k: nat)
    requires pos + k * n <= bits
    ensures RunsFit(AllClear(bits), pos, n, k)
    decreases k
  {
    if k > 0 {
      Distribute(k - 1, 1, n);
      MulLe(0, k - 1, n);
      FreshFits(bits, pos + n, n, k - 1);
      assert FreeRun(AllClear(bits), pos, n);
    }
  }

  const KB4: nat := 0x1000

  /**
  Sixteen mempool blocks, as in a huge page of 64 KB, and a pool of six blocks of 8193
  bytes: the byte check passes, five runs fit, and the scan for the sixth leaves the
  bitmap at block 15.  The code's sixth block is in the mapping only with 4097 bytes of slack.
  */
  method OverrunOfFresh(slack: nat, guard: Word) returns (st: Status)
    requires Small(16, Region(0, KB4, slack))
    ensures st == Overran(15) && (InMapping(15 * KB4, 8193, 16, Region(0, KB4, slack)) <==> slack >= 4097)
  {
    hide *;
    var g := Region(0, KB4, slack);
    OverrunFacts(slack);
    var mp := new Mempool(g, 16, guard);
    mp.LedgerParts();
    st := mp.Create(8193, 6, true, _ => true, true);
  }

  lemma OverrunFacts(slack: nat)
    ensures GoesPast(AllClear(16), 16 * KB4 + slack, 8193, 6, KB4, _ => true)
    ensures forall first: nat :: PastAt(AllClear(16), Width(8193, KB4), first) ==> first == 15
    ensures InMapping(15 * KB4, 8193, 16, Region(0, KB4, slack)) <==> slack >= 4097
  {
    FreshOverruns(16, 3, 6);
    FreshEdge(16, 3, 5);
    forall k: nat ensures StuckAt(AllClear(16), 3, k) <==> k == 5 {
      FreshStuck(16, 3, k);
    }
    assert CombinedNum(8193, KB4) == 3;
    hide StuckAt, Edge, Overruns;
  }

  /** A mempool of 2 GB and a pool of 2^31 blocks of one byte: created, without any address. */
  method NoAddresses(guard: Word) returns (mp: Mempool, st: Status)
    ensures st.Done? && |mp.entries| == 1 && mp.entries[0].Live?
    ensures mp.entries[0].pool.depth == I31 && mp.entries[0].pool.elems == []
  {
    hide *;
    NoAddressFacts();
    mp := new Mempool(Region(0, KB4, 0), 0x8_0000, guard);
    mp.LedgerParts();
    st := mp.Create(1, I31, true, _ => true, true);
    CreatedIs([], mp.entries, 1, I31);
  }

  lemma NoAddressFacts()
    ensures Small(0x8_0000, Region(0, KB4, 0)) && Given(I31) == 0
    ensures Room(AllClear(0x8_0000), 0x8_0000 * KB4 + 0, 1, I31, KB4) && RunsNeeded(1, I31, KB4) == 0
  {
    assert Int32(I31) == 0 - I31;
    assert I31 % U64 == I31;
  }

  lemma CreatedIs(was: seq<Entry>, now: seq<Entry>, size: nat, depth: nat)
    requires Created(was, now, size, depth)
    ensures |now| == |was| + 1 && now[|was|].Live?
    ensures now[|was|].pool.depth == depth && |now[|was|].pool.elems| == Given(depth)
  {
  }

  /** 2^31 blocks of 2^33 bytes pass the byte check of any mempool, full or not: created, without any address. */
  method WrappedProduct(mp: Mempool) returns (st: Status)
    requires mp.Ledger()
    modifies mp, mp.bitmap, mp.bitmap.words
    ensures st.Done? && |mp.entries| == |old(mp.entries)| + 1 && mp.entries[|old(mp.entries)|].Live?
    ensures mp.entries[|old(mp.entries)|].pool.elems == []
  {
    hide *;
    mp.LedgerParts();
    mp.HoldsParts();
    WrappedFacts(mp.bitmap.contents, mp.realSize, mp.bitmap.bits, mp.g);
    st := mp.Create(0x2_0000_0000, I31, true, _ => true, true);
    CreatedIs(old(mp.entries), mp.entries, 0x2_0000_0000, I31);
  }

  lemma WrappedFacts(b: seq<bool>, bytes: nat, bits: nat, g: Region)
    requires Small(bits, g)
    ensures g.unit > 0 && Room(b, bytes, 0x2_0000_0000, I31, g.unit) && RunsNeeded(0x2_0000_0000, I31, g.unit) == 0
    ensures Given(I31) == 0
  {
    assert Int32(I31) == 0 - I31;
    assert 0x2_0000_0000 * I31 % U64 == 0;
  }

  /** A block of 2^44 bytes needs 2^32 mempool blocks, which as an int are none: the search for them never ends. */
  method SearchHangs(bits: nat, guard: Word) returns (st: Status)
    requires bits > 0 && Small(bits, Region(0, KB4, 0))
    ensures st.Hangs?
  {
    hide *;
    HangFacts(bits);
    var mp := new Mempool(Region(0, KB4, 0), bits, guard);
    mp.LedgerParts();
    st := mp.Create(0x1000_0000_0000, 0x10_0000, true, _ => true, true);
  }

  lemma HangFacts(bits: nat)
    requires bits > 0
    ensures NeverEnds(AllClear(bits), bits * KB4 + 0, 0x1000_0000_0000, 0x10_0000, KB4)
  {
    assert CombinedNum(0x1000_0000_0000, KB4) == U32;
    assert 0x1000_0000_0000 * 0x10_0000 % U64 == 0;
    assert !AllClear(bits)[0];
    assert bits * KB4 >= 0;
  }

  /** With one mempool block more per block, as an int that one: 2^20 blocks of 16 TB, 4 KB apart. */
  method ShortBlocks(guard: Word) returns (mp: Mempool, st: Status)
    ensures st.Done? && |mp.entries| == 1 && mp.entries[0].Live?
    ensures |mp.entries[0].pool.elems| == mp.entries[0].pool.depth == 0x10_0000
    ensures mp.Ledger() && !mp.Valid()
  {
    hide *;
    ShortFacts();
    mp := new Mempool(Region(0, KB4, 0), 0x10_0000, guard);
    mp.LedgerParts();
    st := mp.Create(0x1000_0000_1000, 0x10_0000, true, _ => true, true);
    CreatedIs([], mp.entries, 0x1000_0000_1000, 0x10_0000);
  }

  lemma ShortFacts()
    ensures Small(0x10_0000, Region(0, KB4, 0)) && Given(0x10_0000) == 0x10_0000
    ensures Room(AllClear(0x10_0000), 0x10_0000 * KB4 + 0, 0x1000_0000_1000, 0x10_0000, KB4)
    ensures Width(0x1000_0000_1000, KB4) != RunLength(0x1000_0000_1000, KB4)
  {
    assert CombinedNum(0x1000_0000_1000, KB4) == U32 + 1;
    assert 0x1000_0000_1000 * 0x10_0000 % U64 == U32;
    FreshFits(0x10_0000, 0, 1, 0x10_0000);
  }
}
