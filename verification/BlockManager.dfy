/**
The non-SVA block pool of wd_bmm.c with its byte bitmap and header array updated
in place.  `view` is the allocator as a value; see Extents for what it means.
*/
module BlockManager {
  import opened Options
  import ModArith
  import opened MemZones
  import opened Extents

  const BYTE: nat := 8
  const MAX_SKIP_ATTEMPTS: nat := 10

  /** One byte of the bitmap, least significant bit first. */
  type Octet = b: seq<bool> | |b| == BYTE witness seq(BYTE, _ => false)

  /** Freed, ignored for a bad address, or a length that reaches past the last block. */
  datatype FreeStatus = Freed | Ignored | PastEnd

  /** Blocks for `size` bytes: 64-bit sum, then a 32-bit result. */
  function RequiredBlocks(size: nat, blkSz: nat): (n: nat)
    requires blkSz > 0
    ensures n < U32
  {
    ((size + blkSz - 1) % U64 / blkSz) % U32
  }

  /** The 32-bit block count is the right one exactly when it fits and the sum does not wrap. */
  lemma RequiredBlocksCover(size: nat, blkSz: nat)
    requires 0 < size < U64 && 0 < blkSz < U32
    ensures RequiredBlocks(size, blkSz) * blkSz >= size <==>
            size + blkSz - 1 < U64 && (size + blkSz - 1) / blkSz < U32
  {
    var sum := size + blkSz - 1;
    if sum < U64 {
      ModArith.DivModUnique(sum, U64, 0, sum);
      Truncated(sum / blkSz);
      CeilCovers(size, blkSz, (sum / blkSz) % U32);
    } else {
      ModArith.DivModUnique(sum, U64, 1, sum - U64);
      WrappedSum(sum - U64, blkSz);
      assert RequiredBlocks(size, blkSz) == 0;
    }
  }

  /** A request one byte past 2^32 blocks of 64 bytes is taken for one block. */
  lemma WrappedRequest()
    ensures RequiredBlocks(0x40_0000_0001, 64) == 1
  {
  }

  /** It is the least number of blocks, cut to 32 bits; nothing when the sum wraps. */
  lemma RequiredBlocksIs(size: nat, blkSz: nat, n: nat)
    requires 0 < size < U64 && 0 < blkSz < U32 && n > 0 && (n - 1) * blkSz < size <= n * blkSz
    ensures RequiredBlocks(size, blkSz) == if size + blkSz - 1 < U64 then n % U32 else 0
  {
    var sum := size + blkSz - 1;
    ModArith.Distribute(n - 1, 1, blkSz);
    if sum < U64 {
      ModArith.DivModUnique(sum, U64, 0, sum);
      ModArith.DivModUnique(sum, blkSz, n, sum - n * blkSz);
    } else {
      ModArith.DivModUnique(sum, U64, 1, sum - U64);
      WrappedSum(sum - U64, blkSz);
    }
  }

  lemma Truncated(q: nat)
    ensures q % U32 >= q <==> q < U32
  {
  }

  /** A count covers size bytes exactly when it is at least the rounded-up quotient. */
  lemma CeilCovers(size: nat, blkSz: nat, n: nat)
    requires 0 < blkSz && size > 0
    ensures n * blkSz >= size <==> n >= (size + blkSz - 1) / blkSz
  {
    var sum := size + blkSz - 1;
    var q := sum / blkSz;
    assert q * blkSz + sum % blkSz == sum;
    if n >= q {
      ModArith.MulLe(q, n, blkSz);
    } else {
      ModArith.MulLe(n, q - 1, blkSz);
      ModArith.Distribute(q - 1, 1, blkSz);
    }
  }

  /** A wrapped sum is below the block size, so no block is asked for. */
  lemma WrappedSum(rest: nat, blkSz: nat)
    requires rest < blkSz
    ensures rest / blkSz == 0
  {
    ModArith.DivModUnique(rest, blkSz, 0, rest);
  }

  lemma FreshInv(base: seq<bool>, hds: seq<Hd>)
    requires |base| == |hds| < U32
    requires forall i :: 0 <= i < |base| && !base[i] ==> hds[i].tag == TagFree && hds[i].num == 0
    ensures Inv(Blocks(base, hds, |base| - CountSet(base), map[]), base)
  {
  }

  /** The device can address the block at va as one piece. */
  predicate Addressable(iova: nat -> nat, va: nat, blockSize: nat)
    requires blockSize > 0
  {
    (iova(va + blockSize - 1) - iova(va)) % U64 == blockSize - 1
  }

  function VaOf(start: nat, sz: nat, i: nat): (va: nat) {
    start + sz * i
  }

  /** The block that holds an address, were there enough of them. */
  function BlockAt(buf: nat, start: nat, sz: nat): (i: nat)
    requires start <= buf && sz > 0
  {
    (buf - start) / sz
  }

  /** blk_idx of wd_mem_free: that number in 32 bits. */
  function IndexOf(buf: nat, start: nat, sz: nat): (i: nat)
    requires start <= buf && sz > 0
    ensures i == BlockAt(buf, start, sz) <==> BlockAt(buf, start, sz) < U32
    ensures i < U32
  {
    BlockAt(buf, start, sz) % U32
  }

  /** The address is one of block i. */
  predicate LiesIn(buf: nat, start: nat, sz: nat, i: nat) {
    VaOf(start, sz, i) <= buf < VaOf(start, sz, i) + sz
  }

  /** Any address inside block i names block i, as long as its number fits 32 bits. */
  lemma AddressNames(start: nat, sz: nat, i: nat, o: nat)
    requires o < sz && i < U32
    ensures start <= VaOf(start, sz, i) + o && IndexOf(VaOf(start, sz, i) + o, start, sz) == i
  {
    ModArith.MulLe(0, i, sz);
    ModArith.DivModUnique(sz * i + o, sz, i, o);
  }

  /** Every block that initialisation accepted is where its number says, and mapped there. */
  ghost predicate Placed(hds: seq<Hd>, base: seq<bool>, iova: nat -> nat, start: nat, sz: nat) {
    |hds| == |base| && forall i :: 0 <= i < |hds| && !base[i] ==>
      hds[i].va == VaOf(start, sz, i) && hds[i].dma == iova(VaOf(start, sz, i))
  }

  /** Tags and lengths do not move a block. */
  lemma StaysPlaced(hds: seq<Hd>, hds': seq<Hd>, base: seq<bool>, iova: nat -> nat, start: nat, sz: nat)
    requires Placed(hds, base, iova, start, sz) && |hds'| == |hds|
    requires forall i :: 0 <= i < |hds| ==> hds'[i].va == hds[i].va && hds'[i].dma == hds[i].dma
    ensures Placed(hds', base, iova, start, sz)
  {
    hide VaOf;
  }

  /** Allocation and release change tags and lengths only. */
  lemma HeadersStay(v: Blocks, s: nat, n: nat)
    requires |v.used| == |v.hds|
    ensures n > 0 && s + n <= |v.hds| ==> forall i :: 0 <= i < |v.hds| ==>
      Take(v, s, n).hds[i].va == v.hds[i].va && Take(v, s, n).hds[i].dma == v.hds[i].dma
    ensures s < |v.hds| ==> |Give(v, s).hds| == |v.hds| && forall i :: 0 <= i < |v.hds| ==>
      Give(v, s).hds[i].va == v.hds[i].va && Give(v, s).hds[i].dma == v.hds[i].dma
  {
    hide Paint;
  }

  /** First and last block of a run are as far apart for the device as in memory. */
  predicate Together(iova: nat -> nat, start: nat, sz: nat, s: nat, n: nat)
    requires n > 0
  {
    var first, last := VaOf(start, sz, s), VaOf(start, sz, s + n - 1);
    (iova(last) - iova(first)) % U64 == (last - first) % U64
  }

  /** A run passes the test of the search exactly when that holds. */
  lemma SpansMeans(v: Blocks, base: seq<bool>, iova: nat -> nat, start: nat, sz: nat, s: nat, n: nat)
    requires Inv(v, base) && Placed(v.hds, base, iova, start, sz) && n > 0 && Candidate(v.used, n, s)
    ensures Spans(v.hds, n, s) <==> Together(iova, start, sz, s, n)
  {
    assert BlockOk(v, base, s) && BlockOk(v, base, s + n - 1);
    hide VaOf;
  }

  /** Blocks below n that the device can address as one piece. */
  ghost function Usable(iova: nat -> nat, start: nat, sz: nat, blockSize: nat, n: nat): (c: nat)
    requires blockSize > 0
  {
    if n == 0 then 0
    else Usable(iova, start, sz, blockSize, n - 1)
         + if Addressable(iova, VaOf(start, sz, n - 1), blockSize) then 1 else 0
  }

  /** Both ends of the block can be mapped. */
  predicate Mapped(iova: nat -> nat, va: nat, blockSize: nat)
    requires blockSize > 0
  {
    iova(va) != 0 && iova(va + blockSize - 1) != 0
  }

  ghost predicate AllMapped(iova: nat -> nat, start: nat, sz: nat, blockSize: nat, n: nat)
    requires blockSize > 0
  {
    forall i :: 0 <= i < n ==> Mapped(iova, VaOf(start, sz, i), blockSize)
  }

  lemma UsableStep(iova: nat -> nat, start: nat, sz: nat, blockSize: nat, n: nat)
    requires blockSize > 0
    ensures Usable(iova, start, sz, blockSize, 0) == 0
    ensures Usable(iova, start, sz, blockSize, n + 1) ==
            Usable(iova, start, sz, blockSize, n) + if Addressable(iova, VaOf(start, sz, n), blockSize) then 1 else 0
  {
  }

  lemma MappedStep(iova: nat -> nat, start: nat, sz: nat, blockSize: nat, n: nat, total: nat)
    requires blockSize > 0
    ensures AllMapped(iova, start, sz, blockSize, 0)
    ensures var va := VaOf(start, sz, n);
      var ok := iova(va) != 0 && iova(va + blockSize - 1) != 0;
      && (AllMapped(iova, start, sz, blockSize, n) && ok ==> AllMapped(iova, start, sz, blockSize, n + 1))
      && (n < total && !ok ==> !AllMapped(iova, start, sz, blockSize, total))
  {
    assert Mapped(iova, VaOf(start, sz, n), blockSize)
      <==> iova(VaOf(start, sz, n)) != 0 && iova(VaOf(start, sz, n) + blockSize - 1) != 0;
    hide Mapped, VaOf;
  }

  function InitHd(iova: nat -> nat, va: nat): (h: Hd)
    ensures h.tag == TagFree && h.num == 0
  {
    Hd(TagFree, 0, iova(va), va)
  }

  /** Headers and bits after initialisation: unusable blocks marked and their headers left as they were. */
  ghost predicate Initialised(p: Pool, iova: nat -> nat, start: nat, sz: nat, blockSize: nat, leftover: nat -> Hd)
    requires blockSize > 0
    reads p, p.blk
  {
    && |p.base| == p.blk.Length
    && (forall i :: 0 <= i < p.blk.Length ==> p.base[i] == !Addressable(iova, VaOf(start, sz, i), blockSize))
    && (forall i :: 0 <= i < p.blk.Length ==>
          p.blk[i] == if p.base[i] then leftover(i) else InitHd(iova, VaOf(start, sz, i)))
  }

  /** act_num: the number of whole blocks, in 32 bits. */
  function BlockCount(memSz: nat, sz: nat): (n: nat)
    requires sz > 0
    ensures n < U32
  {
    memSz / sz % U32
  }

  /** As many whole blocks as the memory holds, cut to 32 bits. */
  lemma BlockCountIs(memSz: nat, sz: nat, n: nat)
    requires sz > 0 && n * sz <= memSz < (n + 1) * sz
    ensures BlockCount(memSz, sz) == n % U32
  {
    ModArith.Distribute(n, 1, sz);
    ModArith.DivModUnique(memSz, sz, n, memSz - n * sz);
  }

  /** NUM_TIMES: 87 percent, in 32-bit arithmetic. */
  function NumTimes(x: nat): (n: nat) {
    87 * x % U32 / 100
  }

  /** The threshold is 87 percent exactly when the product fits in 32 bits. */
  lemma NumTimesExact(x: nat)
    ensures NumTimes(x) == 87 * x / 100 <==> 87 * x < U32
    ensures NumTimes(49_367_441) == 0
  {
  }

  lemma ByteFits()
    ensures 2 < BYTE < U32
  {
  }

  lemma PlacedAtStart(hds: seq<Hd>, base: seq<bool>, iova: nat -> nat, start: nat, sz: nat)
    requires |hds| == |base|
    requires forall k :: 0 <= k < |hds| && !base[k] ==> hds[k] == InitHd(iova, VaOf(start, sz, k))
    ensures Placed(hds, base, iova, start, sz)
  {
  }

  /** ShortBitmap: the 32-bit sum that rounds the bitmap up to bytes has wrapped; the model ends there. */
  datatype InitResult = Ready(pool: Pool) | Refused | ShortBitmap

  /**
  wd_pool_init.  iova is wd_iova_map, zero meaning failure; leftover is what the header
  array holds before initialisation.  wd_pool_params_check has bounded the sizes by then.
  */
  method PoolInit(iova: nat -> nat, actStart: nat, hdSz: nat, blkSz: nat, blockSize: nat, wanted: nat,
                  memSz: nat, leftover: nat -> Hd, arrayOk: bool, bitmapOk: bool) returns (r: InitResult)
    requires blkSz > 0 && blockSize > 0 && hdSz + blkSz < U32 && actStart > 0
    ensures r.ShortBitmap? <==> BlockCount(memSz, hdSz + blkSz) + BYTE > U32 && arrayOk && bitmapOk
    ensures r.Ready? <==>
      && 0 < BlockCount(memSz, hdSz + blkSz) <= U32 - BYTE && arrayOk && bitmapOk
      && AllMapped(iova, actStart, hdSz + blkSz, blockSize, BlockCount(memSz, hdSz + blkSz))
      && Usable(iova, actStart, hdSz + blkSz, blockSize, BlockCount(memSz, hdSz + blkSz)) > NumTimes(wanted)
    ensures r.Ready? ==>
      && fresh(r.pool) && fresh(r.pool.bitmap) && fresh(r.pool.blk) && r.pool.Valid() && r.pool.view.extents == map[]
      && r.pool.blk.Length == BlockCount(memSz, hdSz + blkSz)
      && r.pool.actStart == actStart && r.pool.hdSz == hdSz && r.pool.blkSz == blkSz && r.pool.iova == iova
      && r.pool.freeBlkNum == Usable(iova, actStart, hdSz + blkSz, blockSize, BlockCount(memSz, hdSz + blkSz))
      && Initialised(r.pool, iova, actStart, hdSz + blkSz, blockSize, leftover)
  {
    hide *;
    ByteFits();
    var total := BlockCount(memSz, hdSz + blkSz);
    if total == 0 { return Refused; }
    if !arrayOk || !bitmapOk { return Refused; }
    if total + BYTE > U32 { return ShortBitmap; }
    r := InitTotal(iova, actStart, hdSz, blkSz, blockSize, total, NumTimes(wanted), leftover);
  }

  /** wd_pool_init once the two arrays are there: the loop, and the test of the number of usable blocks. */
  method InitTotal(iova: nat -> nat, actStart: nat, hdSz: nat, blkSz: nat, blockSize: nat, total: nat, least: nat,
                   leftover: nat -> Hd) returns (r: InitResult)
    requires blkSz > 0 && blockSize > 0 && 0 < total < U32 && actStart > 0
    ensures r.Ready? || r.Refused?
    ensures r.Ready? <==>
      && AllMapped(iova, actStart, hdSz + blkSz, blockSize, total)
      && Usable(iova, actStart, hdSz + blkSz, blockSize, total) > least
    ensures r.Ready? ==>
      && fresh(r.pool) && fresh(r.pool.bitmap) && fresh(r.pool.blk) && r.pool.Valid() && r.pool.view.extents == map[]
      && r.pool.blk.Length == total
      && r.pool.actStart == actStart && r.pool.hdSz == hdSz && r.pool.blkSz == blkSz && r.pool.iova == iova
      && r.pool.freeBlkNum == Usable(iova, actStart, hdSz + blkSz, blockSize, total)
      && Initialised(r.pool, iova, actStart, hdSz + blkSz, blockSize, leftover)
  {
    hide Inv, VaOf, Addressable, CountSet, InitHd, Usable, Mapped, AllMapped;
    var blk := new Hd[total](i requires 0 <= i => leftover(i));
    var bitmap := new Octet[(total + BYTE - 1) / BYTE](_ => seq(BYTE, _ => false));
    assert forall k :: 0 <= k < total ==> blk[k] == leftover(k);
    label before:
    var sz := hdSz + blkSz;
    var ok, base, dmaNum := InitBlocks(iova, actStart, sz, blockSize, bitmap, blk);
    if !ok || dmaNum <= least { return Refused; }
    forall k | 0 <= k < total ensures blk[k] == if base[k] then leftover(k) else InitHd(iova, VaOf(actStart, sz, k)) {
      assert bitmap[k / BYTE][k % BYTE] == base[k];
      assert old@before(blk[k]) == leftover(k);
    }
    PlacedAtStart(blk[..], base, iova, actStart, sz);
    var p := new Pool(bitmap, blk, base, iova, actStart, hdSz, blkSz, dmaNum);
    return Ready(p);
  }

  /** The loop of wd_pool_init over all blocks. */
  method InitBlocks(iova: nat -> nat, start: nat, sz: nat, blockSize: nat, bitmap: array<Octet>, blk: array<Hd>)
    returns (ok: bool, ghost base: seq<bool>, dmaNum: nat)
    requires blockSize > 0 && bitmap.Length == (blk.Length + BYTE - 1) / BYTE
    requires forall k :: 0 <= k < blk.Length ==> !bitmap[k / BYTE][k % BYTE]
    modifies bitmap, blk
    ensures ok <==> AllMapped(iova, start, sz, blockSize, blk.Length)
    ensures ok ==>
      && |base| == blk.Length
      && dmaNum == blk.Length - CountSet(base) == Usable(iova, start, sz, blockSize, blk.Length)
    ensures ok ==> forall k :: 0 <= k < blk.Length ==>
      && bitmap[k / BYTE][k % BYTE] == base[k] == !Addressable(iova, VaOf(start, sz, k), blockSize)
      && blk[k] == (if base[k] then old(blk[k]) else InitHd(iova, VaOf(start, sz, k)))
  {
    hide VaOf, Addressable, CountSet, InitHd, Usable, Mapped, AllMapped;
    base, dmaNum := [], 0;
    CountNone([]);
    UsableStep(iova, start, sz, blockSize, 0);
    MappedStep(iova, start, sz, blockSize, 0, blk.Length);
    for i := 0 to blk.Length
      invariant |base| == i && dmaNum == i - CountSet(base) == Usable(iova, start, sz, blockSize, i)
      invariant AllMapped(iova, start, sz, blockSize, i)
      invariant forall k :: 0 <= k < blk.Length ==> bitmap[k / BYTE][k % BYTE] == (k < i && base[k])
      invariant forall k :: 0 <= k < i ==> base[k] == !Addressable(iova, VaOf(start, sz, k), blockSize)
      invariant forall k :: 0 <= k < i && !base[k] ==> blk[k] == InitHd(iova, VaOf(start, sz, k))
      invariant forall k :: 0 <= k < blk.Length && (k >= i || base[k]) ==> blk[k] == old(blk[k])
    {
      var va := VaOf(start, sz, i);
      var first, last := iova(va), iova(va + blockSize - 1);
      UsableStep(iova, start, sz, blockSize, i);
      MappedStep(iova, start, sz, blockSize, i, blk.Length);
      if first == 0 || last == 0 { return false, base, dmaNum; }
      var together := ((last as int) - (first as int)) % U64 == blockSize - 1;
      assert together == Addressable(iova, va, blockSize) by { AddressableMeans(iova, va, blockSize); }
      CountPush(base, !together);
      if together {
        blk[i] := InitHd(iova, va);
        dmaNum := dmaNum + 1;
      } else {
        MarkBit(bitmap, i, blk.Length);
      }
      base := base + [!together];
    }
    ok := true;
  }

  lemma CountPush(bits: seq<bool>, b: bool)
    ensures CountSet(bits + [b]) == CountSet(bits) + if b then 1 else 0
  {
    assert (bits + [b])[..|bits|] == bits;
  }

  lemma AddressableMeans(iova: nat -> nat, va: nat, blockSize: nat)
    requires blockSize > 0
    ensures Addressable(iova, va, blockSize) == ((iova(va + blockSize - 1) - iova(va)) % U64 == blockSize - 1)
  {
  }

  /** bitmap_set_bit. */
  method MarkBit(bitmap: array<Octet>, i: nat, total: nat)
    requires i < total && bitmap.Length == (total + BYTE - 1) / BYTE
    modifies bitmap
    ensures forall j :: 0 <= j < total ==>
      bitmap[j / BYTE][j % BYTE] == (j == i || old(bitmap[j / BYTE])[j % BYTE])
  {
    bitmap[i / BYTE] := bitmap[i / BYTE][i % BYTE := true];
    forall j | 0 <= j < total
      ensures bitmap[j / BYTE][j % BYTE] == (j == i || old(bitmap[j / BYTE])[j % BYTE])
    {
      assert j / BYTE == i / BYTE && j % BYTE == i % BYTE ==> j == i;
    }
  }

  class Pool {
    const bitmap: array<Octet>
    const blk: array<Hd>
    const actStart: nat
    const hdSz: nat
    const blkSz: nat
    /** Blocks that initialisation accepted; setup.block_num afterwards. */
    const blockNum: nat
    /** Which blocks initialisation left untouched; the code keeps no such record. */
    ghost const base: seq<bool>
    /** wd_iova_map of the memory. */
    ghost const iova: nat -> nat
    var freeBlkNum: nat
    var allocFailures: nat
    ghost var view: Blocks

    constructor (bitmap: array<Octet>, blk: array<Hd>, ghost base: seq<bool>, ghost iova: nat -> nat,
                 actStart: nat, hdSz: nat, blkSz: nat, blockNum: nat)
      requires Placed(blk[..], base, iova, actStart, hdSz + blkSz) && actStart > 0
      requires blkSz > 0 && |base| == blk.Length < U32 && bitmap.Length == (blk.Length + BYTE - 1) / BYTE
      requires blockNum == |base| - CountSet(base)
      requires forall i :: 0 <= i < blk.Length ==> base[i] == bitmap[i / BYTE][i % BYTE]
      requires forall i :: 0 <= i < blk.Length && !base[i] ==> blk[i].tag == TagFree && blk[i].num == 0
      ensures Valid() && this.bitmap == bitmap && this.blk == blk && this.base == base
      ensures this.actStart == actStart && this.hdSz == hdSz && this.blkSz == blkSz && this.iova == iova
      ensures view == Blocks(base, blk[..], blockNum, map[])
    {
      this.bitmap, this.blk, this.base, this.iova := bitmap, blk, base, iova;
      this.actStart, this.hdSz, this.blkSz := actStart, hdSz, blkSz;
      this.blockNum, this.freeBlkNum, this.allocFailures := blockNum, blockNum, 0;
      this.view := Blocks(base, blk[..], blockNum, map[]);
      new;
      FreshInv(base, blk[..]);
    }

    ghost predicate Mirrors()
      reads this, bitmap, blk
    {
      && view.hds == blk[..] && view.free == freeBlkNum
      && |view.used| == blk.Length && bitmap.Length == (blk.Length + BYTE - 1) / BYTE
      && forall i :: 0 <= i < blk.Length ==> view.used[i] == bitmap[i / BYTE][i % BYTE]
    }

    ghost predicate Valid()
      reads this, bitmap, blk
    {
      && Mirrors() && Inv(view, base)
      && blockNum == |base| - CountSet(base)
      && blkSz > 0 && actStart > 0 && Placed(view.hds, base, iova, actStart, hdSz + blkSz)
    }

    lemma ValidParts()
      requires Valid()
      ensures Mirrors() && Inv(view, base) && |view.used| == |view.hds| == |base| == blk.Length
      ensures view.hds == blk[..] && view.free == freeBlkNum && blkSz > 0 && actStart > 0
      ensures Placed(view.hds, base, iova, actStart, hdSz + blkSz)
    {
    }

    /** bitmap_test_bit: true when the block is free. */
    method TestBit(i: nat) returns (free: bool)
      requires Mirrors() && i < blk.Length
      ensures free == !view.used[i]
    {
      free := !bitmap[i / BYTE][i % BYTE];
    }

    /** wd_find_contiguous_blocks. */
    method FindContiguous(n: nat) returns (r: Option<nat>)
      requires Mirrors()
      ensures r.Some? ==> n > 0 && Good(view, n, r.value) && NoGood(view, n, r.value)
                          && BadBelow(view, n, r.value) <= MAX_SKIP_ATTEMPTS
      ensures r.None? && n > 0 ==> forall s :: 0 <= s < blk.Length && Good(view, n, s) ==>
                BadBelow(view, n, s) > MAX_SKIP_ATTEMPTS
    {
      hide CountSet, Inv, BadBelow;
      if n == 0 || n > blk.Length { return None; }
      var i, count, skips, start := 0, 0, 0, 0;
      BadAtZero(view, n);
      while i < blk.Length
        invariant i <= blk.Length && count < n && count <= i && skips <= MAX_SKIP_ATTEMPTS
        invariant count > 0 ==> start == i - count
        invariant forall k :: i - count <= k < i ==> !view.used[k]
        invariant NoGood(view, n, i - count) && skips == BadBelow(view, n, i - count)
        decreases MAX_SKIP_ATTEMPTS - skips, blk.Length - i
      {
        var free := TestBit(i);
        if !free {
          PastUsed(view, n, i - count, i);
          count := 0;
          i := i + 1;
          continue;
        }
        if count == 0 { start := i; }
        count := count + 1;
        if count < n {
          i := i + 1;
          continue;
        }
        assert Candidate(view.used, n, start);
        if n > 1 {
          var hd, tl := blk[start], blk[start + n - 1];
          if (tl.dma - hd.dma) % U64 != (tl.va - hd.va) % U64 {
            SkipBad(view, n, start);
            skips := skips + 1;
            if skips > MAX_SKIP_ATTEMPTS {
              LaterIsWorse(view, n, start + 1);
              return None;
            }
            i := start;
            count := 0;
            i := i + 1;
            continue;
          }
        }
        return Some(start);
      }
      TooLate(view, n, i - count);
      return None;
    }

    method SetBit(i: nat)
      requires i < blk.Length && |view.used| == blk.Length && bitmap.Length == (blk.Length + BYTE - 1) / BYTE
      requires forall j :: 0 <= j < blk.Length ==> view.used[j] == bitmap[j / BYTE][j % BYTE]
      modifies bitmap, this`view
      ensures view == old(view).(used := old(view).used[i := true])
      ensures forall j :: 0 <= j < blk.Length ==> view.used[j] == bitmap[j / BYTE][j % BYTE]
    {
      bitmap[i / BYTE] := bitmap[i / BYTE][i % BYTE := true];
      view := view.(used := view.used[i := true]);
      forall j | 0 <= j < blk.Length ensures view.used[j] == bitmap[j / BYTE][j % BYTE] {
        assert j / BYTE == i / BYTE && j % BYTE == i % BYTE ==> j == i;
      }
    }

    method ClearBit(i: nat)
      requires i < blk.Length && |view.used| == blk.Length && bitmap.Length == (blk.Length + BYTE - 1) / BYTE
      requires forall j :: 0 <= j < blk.Length ==> view.used[j] == bitmap[j / BYTE][j % BYTE]
      modifies bitmap, this`view
      ensures view == old(view).(used := old(view).used[i := false])
      ensures forall j :: 0 <= j < blk.Length ==> view.used[j] == bitmap[j / BYTE][j % BYTE]
    {
      bitmap[i / BYTE] := bitmap[i / BYTE][i % BYTE := false];
      view := view.(used := view.used[i := false]);
      forall j | 0 <= j < blk.Length ensures view.used[j] == bitmap[j / BYTE][j % BYTE] {
        assert j / BYTE == i / BYTE && j % BYTE == i % BYTE ==> j == i;
      }
    }

    ghost predicate BitsMirror()
      reads this, bitmap
    {
      && |view.used| == blk.Length && bitmap.Length == (blk.Length + BYTE - 1) / BYTE
      && forall j :: 0 <= j < blk.Length ==> view.used[j] == bitmap[j / BYTE][j % BYTE]
    }

    /** The marking loop of wd_mem_alloc. */
    method MarkUsed(s: nat, n: nat)
      requires BitsMirror() && n > 0 && s + n <= blk.Length
      modifies bitmap, blk, this`view
      ensures BitsMirror() && view == old(view).(used := Paint(old(view).used, s, s + n - 1, true))
      ensures blk[..] == Retag(old(blk[..]), s, n, TagUsed, false)
    {
      for j := s to s + n
        invariant BitsMirror() && view == old(view).(used := view.used)
        invariant forall k :: 0 <= k < blk.Length ==> view.used[k] == if s <= k < j then true else old(view).used[k]
        invariant forall k :: 0 <= k < blk.Length ==>
          blk[k] == if s <= k < j then old(blk[k]).(tag := TagUsed) else old(blk[k])
      {
        blk[j] := blk[j].(tag := TagUsed);
        SetBit(j);
      }
      assert view.used == Paint(old(view).used, s, s + n - 1, true);
      assert blk[..] == Retag(old(blk[..]), s, n, TagUsed, false);
    }

    /** The release loop of wd_mem_free. */
    method MarkFree(s: nat, n: nat)
      requires BitsMirror() && n > 0 && s + n <= blk.Length
      modifies bitmap, blk, this`view
      ensures BitsMirror() && view == old(view).(used := Paint(old(view).used, s, s + n - 1, false))
      ensures blk[..] == Retag(old(blk[..]), s, n, TagFree, true)
    {
      for i := 0 to n
        invariant BitsMirror() && view == old(view).(used := view.used)
        invariant forall k :: 0 <= k < blk.Length ==>
          view.used[k] == if s <= k < s + i then false else old(view).used[k]
        invariant forall k :: 0 <= k < blk.Length ==>
          blk[k] == if s <= k < s + i then old(blk[k]).(tag := TagFree, num := 0) else old(blk[k])
      {
        blk[s + i] := blk[s + i].(tag := TagFree, num := 0);
        ClearBit(s + i);
      }
      assert view.used == Paint(old(view).used, s, s + n - 1, false);
      assert blk[..] == Retag(old(blk[..]), s, n, TagFree, true);
    }

    /** wd_mem_alloc: the address of the first block of the run, which is block s. */
    method MemAlloc(size: nat) returns (r: Option<nat>, ghost s: nat)
      requires Valid() && size > 0
      modifies this`freeBlkNum, this`allocFailures, this`view, bitmap, blk
      ensures Valid()
      ensures r.Some? ==> r.value == VaOf(actStart, hdSz + blkSz, s) > 0 && s < blk.Length
      ensures r.Some? ==> var n := RequiredBlocks(size, blkSz);
        && n > 0 && Good(old(view), n, s) && NoGood(old(view), n, s)
        && BadBelow(old(view), n, s) <= MAX_SKIP_ATTEMPTS
        && view == Take(old(view), s, n) && allocFailures == old(allocFailures)
        && Together(iova, actStart, hdSz + blkSz, s, n)
      ensures r.None? ==> view == old(view) && allocFailures == (old(allocFailures) + 1) % U32
      ensures r.None? ==> var n := RequiredBlocks(size, blkSz);
        n == 0 || n > old(freeBlkNum)
        || forall s :: 0 <= s < blk.Length && Good(old(view), n, s) ==>
             BadBelow(old(view), n, s) > MAX_SKIP_ATTEMPTS
    {
      hide CountSet, BadBelow, NoGood, Placed, VaOf, Together, Spans;
      s := 0;
      var n := RequiredBlocks(size, blkSz);
      if n > freeBlkNum {
        allocFailures := (allocFailures + 1) % U32;
        return None, s;
      }
      var found := FindContiguous(n);
      if found.None? {
        allocFailures := (allocFailures + 1) % U32;
        return None, s;
      }
      var start := found.value;
      s := start;
      TakeInv(view, base, s, n);
      SpansMeans(view, base, iova, actStart, hdSz + blkSz, s, n);
      HeadersStay(view, s, n);
      ghost var after := Take(view, s, n);
      StaysPlaced(view.hds, after.hds, base, iova, actStart, hdSz + blkSz);
      FirstBlock(view, base, iova, actStart, hdSz + blkSz, s, n);
      MarkUsed(start, n);
      freeBlkNum := freeBlkNum - n;
      blk[start] := blk[start].(num := n);
      view := after;
      return Some(blk[start].va), s;
    }

    /**
    wd_mem_free for a non-null address.  It follows the header of whatever block the
    32-bit index names, which is the one the address lies in if that is a block of the
    pool; past the last block, where the model ends, it would write on.
    */
    method MemFree(buf: nat) returns (st: FreeStatus)
      requires Valid()
      modifies this`freeBlkNum, this`view, bitmap, blk
      ensures Mirrors()
      ensures st.Ignored? <==> buf < actStart || IndexOf(buf, actStart, hdSz + blkSz) >= blk.Length
      ensures st.Ignored? ==> Valid() && view == old(view)
      ensures !st.Ignored? ==> var i := IndexOf(buf, actStart, hdSz + blkSz);
        && view == Give(old(view), i)
        && (st.PastEnd? <==> i + old(view).hds[i].num > blk.Length)
        && (Valid() <==> !(base[i] && old(view).hds[i].num != 0))
      ensures forall i: nat :: i < blk.Length && LiesIn(buf, actStart, hdSz + blkSz, i) ==>
        !st.Ignored? && view == Give(old(view), i)
    {
      hide CountSet, IndexOf, Inv, VaOf, Placed, LiesIn;
      var sz := hdSz + blkSz;
      InnerNames(buf, actStart, sz, view, base);
      if buf < actStart { return Ignored; }
      var i := IndexOf(buf, actStart, sz);
      if i >= blk.Length { return Ignored; }
      SameLengths(view, base);
      GiveKeepsIff(view, base, i);
      HeadersStay(view, i, 1);
      var n := blk[i].num;
      if n == 0 { return Freed; }
      ghost var after := Give(view, i);
      StaysPlaced(view.hds, after.hds, base, iova, actStart, sz);
      var m := Inside(blk.Length, i, n);
      MarkFree(i, m);
      freeBlkNum := (freeBlkNum + n) % U32;
      view := after;
      return if m == n then Freed else PastEnd;
    }

    /** The check of wd_mempool_free that refuses to destroy a pool in use. */
    method InUse() returns (busy: bool)
      requires Valid()
      ensures busy <==> view.extents != map[]
    {
      DestroyCheck(view, base);
      busy := freeBlkNum != blockNum;
    }
  }

  /** A pool as it comes up, one usable and one skipped block over memory that held a length: freeing that breaks it. */
  method FreeOfSkippedBlock() returns (p: Pool, st: FreeStatus)
    ensures p.Mirrors() && !p.Valid() && st.Freed?
  {
    hide *;
    var iova: nat -> nat := va => if va == 19 then 25 else va + 1;
    var leftover: nat -> Hd := _ => Hd(TagFree, 1, 0, 0);
    SkippedFacts(iova);
    SkippedCounts();
    var r := PoolInit(iova, 16, 0, 2, 2, 1, 4, leftover, true, true);
    p := r.pool;
    SkippedHeader(p, iova, leftover);
    p.ValidParts();
    st := p.MemFree(18);
  }

  lemma SkippedCounts()
    ensures BlockCount(4, 2) == 2 <= U32 - BYTE && NumTimes(1) == 0 && 2 < U32
    ensures BlockAt(18, 16, 2) == 1 && IndexOf(18, 16, 2) == 1
  {
  }

  lemma SkippedHeader(p: Pool, iova: nat -> nat, leftover: nat -> Hd)
    requires Initialised(p, iova, 16, 2, 2, leftover) && p.blk.Length == 2 && p.Valid()
    requires !Addressable(iova, VaOf(16, 2, 1), 2) && leftover(1).num == 1
    ensures p.base[1] && p.view.hds[1].num == 1
  {
    hide Addressable, VaOf, InitHd, Inv;
  }

  /** An address 2^32 blocks behind a pool of one block in use: freeing it frees that block. */
  method FarFree() returns (p: Pool, buf: nat, st: FreeStatus)
    ensures p.actStart == 16 <= buf && p.hdSz + p.blkSz == 2
    ensures BlockAt(buf, p.actStart, p.hdSz + p.blkSz) == U32 > p.blk.Length == 1
    ensures p.Valid() && st.Freed? && p.view.extents == map[] && p.freeBlkNum == 1
  {
    hide *;
    var iova: nat -> nat := va => va + 1;
    OneBlockFacts(iova);
    ByteFits();
    var r := PoolInit(iova, 16, 0, 2, 2, 1, 2, _ => Hd(TagFree, 0, 0, 0), true, true);
    p := r.pool;
    p.ValidParts();
    ghost var empty := p.view;
    OneFree(empty, p.base);
    var r0, s := p.MemAlloc(2);
    p.ValidParts();
    GiveInv(p.view, p.base, 0);
    TakeThenGive(empty, p.base, 0, 1);
    buf := 16 + U32 * 2;
    st := p.MemFree(buf);
    p.ValidParts();
  }

  lemma OneBlockFacts(iova: nat -> nat)
    requires iova(16) == 17 && iova(17) == 18
    ensures BlockCount(2, 2) == 1 <= U32 - BYTE && NumTimes(1) == 0 && RequiredBlocks(2, 2) == 1
    ensures AllMapped(iova, 16, 2, 2, 1) && Usable(iova, 16, 2, 2, 1) == 1
    ensures BlockAt(16 + U32 * 2, 16, 2) == U32 && IndexOf(16 + U32 * 2, 16, 2) == 0
  {
    hide *;
    OneBlockMapped(iova);
    OneBlockCounts();
    OneBlockPlaces();
  }

  lemma OneBlockCounts()
    ensures BlockCount(2, 2) == 1 <= U32 - BYTE && NumTimes(1) == 0 && RequiredBlocks(2, 2) == 1
  {
    assert (2 + 2 - 1) % U64 == 3;
  }

  lemma OneBlockPlaces()
    ensures BlockAt(16 + U32 * 2, 16, 2) == U32 && IndexOf(16 + U32 * 2, 16, 2) == 0
  {
  }

  lemma OneBlockMapped(iova: nat -> nat)
    requires iova(16) == 17 && iova(17) == 18
    ensures AllMapped(iova, 16, 2, 2, 1) && Usable(iova, 16, 2, 2, 1) == 1
  {
    hide *;
    SkippedPlaces();
    AddressableBy(iova, 16, 2, 1);
    UsableStep(iova, 16, 2, 2, 0);
    MappedStep(iova, 16, 2, 2, 0, 1);
  }

  /** Where the two addresses are not far apart, no difference wraps. */
  lemma AddressableBy(iova: nat -> nat, va: nat, blockSize: nat, d: nat)
    requires blockSize > 0 && iova(va + blockSize - 1) - iova(va) == d < 100
    ensures Addressable(iova, va, blockSize) <==> d == blockSize - 1
  {
  }

  /** One free block: it is the only place for a run of one. */
  lemma OneFree(v: Blocks, base: seq<bool>)
    requires Inv(v, base) && |v.used| == 1 && v.free == 1 && v.extents == map[]
    ensures !base[0] && Candidate(v.used, 1, 0) && Good(v, 1, 0) && BadBelow(v, 1, 0) == 0
    ensures forall s: nat :: Good(v, 1, s) ==> s == 0
    ensures Take(v, 0, 1).extents == map[0 := 1] && 0 in Take(v, 0, 1).extents
  {
    assert v.used[..0] == [];
    assert BlockOk(v, base, 0);
  }

  lemma SkippedFacts(iova: nat -> nat)
    requires iova(16) == 17 && iova(17) == 18 && iova(18) == 19 && iova(19) == 25
    ensures AllMapped(iova, 16, 2, 2, 2) && Usable(iova, 16, 2, 2, 2) == 1
    ensures Addressable(iova, VaOf(16, 2, 0), 2) && !Addressable(iova, VaOf(16, 2, 1), 2)
  {
    hide *;
    SkippedPlaces();
    AddressableBy(iova, 16, 2, 1);
    AddressableBy(iova, 18, 2, 6);
    UsableStep(iova, 16, 2, 2, 0);
    UsableStep(iova, 16, 2, 2, 1);
    MappedStep(iova, 16, 2, 2, 0, 2);
    MappedStep(iova, 16, 2, 2, 1, 2);
  }

  lemma SkippedPlaces()
    ensures VaOf(16, 2, 0) == 16 && VaOf(16, 2, 1) == 18
  {
  }

  lemma FirstBlock(v: Blocks, base: seq<bool>, iova: nat -> nat, start: nat, sz: nat, s: nat, n: nat)
    requires Inv(v, base) && Placed(v.hds, base, iova, start, sz) && n > 0 && Candidate(v.used, n, s) && start > 0
    ensures s < |v.hds| && v.hds[s].va == VaOf(start, sz, s) > 0 && !base[s]
  {
    assert BlockOk(v, base, s);
    ModArith.MulLe(0, s, sz);
  }

  lemma InnerNames(buf: nat, start: nat, sz: nat, v: Blocks, base: seq<bool>)
    requires Inv(v, base) && sz > 0
    ensures forall i: nat :: i < |v.hds| && LiesIn(buf, start, sz, i) ==> start <= buf && IndexOf(buf, start, sz) == i
  {
    hide IndexOf, VaOf;
    forall i: nat | i < |v.hds| && LiesIn(buf, start, sz, i) ensures start <= buf && IndexOf(buf, start, sz) == i {
      AddressNames(start, sz, i, buf - VaOf(start, sz, i));
    }
  }

  /** What is allocated and freed by its address leaves the pool as it was. */
  method AllocThenFree(p: Pool, size: nat) returns (r: Option<nat>, st: FreeStatus)
    requires p.Valid() && size > 0
    modifies p`freeBlkNum, p`allocFailures, p`view, p.bitmap, p.blk
    ensures p.Valid() && p.view == old(p.view) && p.blk[..] == old(p.blk[..])
    ensures p.freeBlkNum == old(p.freeBlkNum) && (r.Some? ==> st.Freed?)
  {
    hide *;
    p.ValidParts();
    ghost var s;
    r, s := p.MemAlloc(size);
    p.ValidParts();
    if r.None? { return r, Ignored; }
    ghost var n, taken := RequiredBlocks(size, p.blkSz), p.view;
    GoodRun(old(p.view), n, s);
    TakeThenGive(old(p.view), p.base, s, n);
    TakenHead(old(p.view), p.base, s, n);
    FirstBlock(old(p.view), p.base, p.iova, p.actStart, p.hdSz + p.blkSz, s, n);
    StartLiesIn(p.actStart, p.hdSz + p.blkSz, s);
    InnerNames(r.value, p.actStart, p.hdSz + p.blkSz, taken, p.base);
    st := p.MemFree(r.value);
    p.ValidParts();
  }

  lemma StartLiesIn(start: nat, sz: nat, i: nat)
    requires sz > 0
    ensures LiesIn(VaOf(start, sz, i), start, sz, i)
  {
  }

  lemma GoodRun(v: Blocks, n: nat, s: nat)
    requires n > 0 && |v.used| == |v.hds| && Good(v, n, s)
    ensures Candidate(v.used, n, s)
  {
  }

  /** The head of a run just taken holds its length, inside the pool. */
  lemma TakenHead(v: Blocks, base: seq<bool>, s: nat, n: nat)
    requires Inv(v, base) && n > 0 && Candidate(v.used, n, s)
    ensures s < |Take(v, s, n).hds| && Take(v, s, n).hds[s].num == n && s + n <= |Take(v, s, n).hds|
  {
    hide CountSet, Paint, ExtentsOk;
    assert BlockOk(v, base, s);
  }

  lemma SameLengths(v: Blocks, base: seq<bool>)
    requires Inv(v, base)
    ensures |v.used| == |v.hds| == |base|
  {
  }

  /** No run of n free blocks starts between lo and a used block less than n away. */
  lemma PastUsed(v: Blocks, n: nat, lo: nat, i: nat)
    requires n > 0 && |v.used| == |v.hds| && lo <= i < lo + n && i < |v.used| && v.used[i]
    requires NoGood(v, n, lo)
    ensures NoGood(v, n, i + 1) && BadBelow(v, n, i + 1) == BadBelow(v, n, lo)
    decreases i - lo
  {
    assert !Candidate(v.used, n, lo) by { assert v.used[i]; }
    if lo < i {
      PastUsed(v, n, lo + 1, i);
    }
  }

  lemma BadAtZero(v: Blocks, n: nat)
    requires n > 0 && |v.used| == |v.hds|
    ensures BadBelow(v, n, 0) == 0
  {
  }

  lemma SkipBad(v: Blocks, n: nat, s: nat)
    requires n > 0 && |v.used| == |v.hds| && NoGood(v, n, s) && Candidate(v.used, n, s) && !Spans(v.hds, n, s)
    ensures NoGood(v, n, s + 1) && BadBelow(v, n, s + 1) == BadBelow(v, n, s) + 1
  {
  }

  lemma LaterIsWorse(v: Blocks, n: nat, lo: nat)
    requires n > 0 && |v.used| == |v.hds| && NoGood(v, n, lo) && BadBelow(v, n, lo) > MAX_SKIP_ATTEMPTS
    ensures forall s :: 0 <= s < |v.used| && Good(v, n, s) ==> BadBelow(v, n, s) > MAX_SKIP_ATTEMPTS
  {
    forall s | 0 <= s < |v.used| && Good(v, n, s) ensures BadBelow(v, n, s) > MAX_SKIP_ATTEMPTS {
      BadGrows(v, n, lo, s);
    }
  }

  lemma TooLate(v: Blocks, n: nat, lo: nat)
    requires n > 0 && |v.used| == |v.hds| && NoGood(v, n, lo) && |v.used| < lo + n
    ensures forall s :: 0 <= s < |v.used| ==> !Good(v, n, s)
  {
  }
}
