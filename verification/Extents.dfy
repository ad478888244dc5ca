/**
The contiguous block allocator of wd_bmm.c as a value: a used-bit per block, the
block headers, the free counter, and the live extents (head block to length).
*/
module Extents {
  import opened MemZones

  const U32: nat := 0x1_0000_0000
  const U64: nat := 0x1_0000_0000_0000_0000

  datatype Tag = TagFree | TagUsed
  datatype Hd = Hd(tag: Tag, num: nat, dma: int, va: int)

  /** extents is what the headers and bits are meant to say; nothing in the code stores it. */
  datatype Blocks = Blocks(used: seq<bool>, hds: seq<Hd>, free: int, extents: map<nat, nat>)

  /** Block i belongs to the extent that starts at h. */
  predicate InExtent(ext: map<nat, nat>, h: nat, i: nat) {
    h in ext && h <= i < h + ext[h]
  }

  ghost predicate Taken(ext: map<nat, nat>, i: nat) {
    exists h :: InExtent(ext, h, i)
  }

  ghost predicate ExtentsOk(ext: map<nat, nat>, total: nat) {
    && (forall h :: h in ext ==> ext[h] > 0 && h + ext[h] <= total)
    && (forall h: nat, g: nat, i: nat :: InExtent(ext, h, i) && InExtent(ext, g, i) ==> h == g)
  }

  /** base marks the blocks that initialisation found unusable and left uninitialised. */
  ghost predicate BlockOk(v: Blocks, base: seq<bool>, i: nat)
    requires |v.used| == |v.hds| == |base| && i < |base|
  {
    if base[i] then v.used[i] && !Taken(v.extents, i)
    else
      && v.used[i] == Taken(v.extents, i)
      && v.hds[i].tag == (if v.used[i] then TagUsed else TagFree)
      && v.hds[i].num == if i in v.extents then v.extents[i] else 0
  }

  ghost predicate Inv(v: Blocks, base: seq<bool>) {
    && |v.used| == |v.hds| == |base| < U32
    && ExtentsOk(v.extents, |base|)
    && (forall i :: 0 <= i < |base| ==> BlockOk(v, base, i))
    && v.free == |base| - CountSet(v.used)
  }

  /** A run of n blocks, none of them in use. */
  predicate Candidate(used: seq<bool>, n: nat, s: nat) {
    s + n <= |used| && forall k :: s <= k < s + n ==> !used[k]
  }

  /** Headers of blocks s..s+n with the tag set and the lengths cleared or kept. */
  function Retag(hds: seq<Hd>, s: nat, n: nat, tag: Tag, clear: bool): (r: seq<Hd>)
    ensures |r| == |hds|
  {
    seq(|hds|, i requires 0 <= i < |hds| =>
      if s <= i < s + n then hds[i].(tag := tag, num := if clear then 0 else hds[i].num) else hds[i])
  }

  /** The marking loop and counter update of wd_mem_alloc. */
  function Take(v: Blocks, s: nat, n: nat): (r: Blocks)
    requires |v.used| == |v.hds| && n > 0 && s + n <= |v.used|
  {
    var hds := Retag(v.hds, s, n, TagUsed, false);
    Blocks(Paint(v.used, s, s + n - 1, true), hds[s := hds[s].(num := n)], v.free - n, v.extents[s := n])
  }

  /** Blocks of the pool among the n that start at i. */
  function Inside(total: nat, i: nat, n: nat): (m: nat)
    requires i < total
    ensures m <= n && i + m <= total && (m == n || i + m == total)
  {
    if i + n <= total then n else total - i
  }

  /**
  The release loop and 32-bit counter update of wd_mem_free for block i, header length n:
  what they do inside the pool.  A length past the last block is followed that far.
  */
  function Give(v: Blocks, i: nat): (r: Blocks)
    requires |v.used| == |v.hds| && i < |v.hds|
  {
    var n := v.hds[i].num;
    var m := Inside(|v.hds|, i, n);
    if n == 0 then v
    else Blocks(Paint(v.used, i, i + m - 1, false), Retag(v.hds, i, m, TagFree, true),
                (v.free + n) % U32, v.extents - {i})
  }

  lemma TakenAfterTake(ext: map<nat, nat>, s: nat, n: nat, i: nat)
    requires s !in ext && n > 0
    ensures Taken(ext[s := n], i) <==> Taken(ext, i) || s <= i < s + n
  {
    var ext' := ext[s := n];
    if Taken(ext, i) {
      var h :| InExtent(ext, h, i);
      assert InExtent(ext', h, i);
    }
    if s <= i < s + n { assert InExtent(ext', s, i); }
    if Taken(ext', i) {
      var h :| InExtent(ext', h, i);
      assert h == s || InExtent(ext, h, i);
    }
  }

  lemma TakenAfterGive(ext: map<nat, nat>, s: nat, total: nat, i: nat)
    requires ExtentsOk(ext, total) && s in ext
    ensures Taken(ext - {s}, i) <==> Taken(ext, i) && !(s <= i < s + ext[s])
  {
    var ext' := ext - {s};
    if Taken(ext', i) {
      var h :| InExtent(ext', h, i);
      assert InExtent(ext, h, i);
      if s <= i < s + ext[s] { assert InExtent(ext, s, i); }
    }
    if Taken(ext, i) && !(s <= i < s + ext[s]) {
      var h :| InExtent(ext, h, i);
      assert InExtent(ext', h, i);
    }
  }

  lemma CountSetRun(used: seq<bool>, s: nat, n: nat)
    requires n > 0 && Candidate(used, n, s)
    ensures CountSet(Paint(used, s, s + n - 1, true)) == CountSet(used) + n
  {
    var used' := Paint(used, s, s + n - 1, true);
    CountPaint(used', s, s + n - 1);
    assert Paint(used', s, s + n - 1, false) == used;
  }

  /** Where a free run starts no extent starts, and none reaches into it. */
  lemma FreshRun(v: Blocks, base: seq<bool>, s: nat, n: nat)
    requires Inv(v, base) && n > 0 && Candidate(v.used, n, s)
    ensures s !in v.extents
    ensures forall i :: s <= i < s + n ==> !Taken(v.extents, i) && !base[i]
  {
    forall i | s <= i < s + n ensures !Taken(v.extents, i) && !base[i] {
      assert BlockOk(v, base, i) && !v.used[i];
    }
    assert s in v.extents ==> InExtent(v.extents, s, s) by { assert ExtentsOk(v.extents, |base|); }
    assert !Taken(v.extents, s);
  }

  lemma TakeExtents(ext: map<nat, nat>, total: nat, s: nat, n: nat)
    requires ExtentsOk(ext, total) && n > 0 && s + n <= total
    requires forall i :: s <= i < s + n ==> !Taken(ext, i)
    ensures ExtentsOk(ext[s := n], total)
  {
    var ext' := ext[s := n];
    forall h: nat, g: nat, i: nat | InExtent(ext', h, i) && InExtent(ext', g, i) ensures h == g {
      assert h != s ==> InExtent(ext, h, i);
      assert g != s ==> InExtent(ext, g, i);
      assert Taken(ext, i) ==> !(s <= i < s + n);
    }
  }

  lemma TakeInv(v: Blocks, base: seq<bool>, s: nat, n: nat)
    requires Inv(v, base) && n > 0 && Candidate(v.used, n, s)
    ensures Inv(Take(v, s, n), base)
  {
    var v' := Take(v, s, n);
    FreshRun(v, base, s, n);
    TakeExtents(v.extents, |base|, s, n);
    CountSetRun(v.used, s, n);
    forall i | 0 <= i < |base| ensures BlockOk(v', base, i) {
      assert BlockOk(v, base, i);
      TakenAfterTake(v.extents, s, n, i);
    }
  }

  lemma GiveInv(v: Blocks, base: seq<bool>, i: nat)
    requires Inv(v, base) && i in v.extents
    ensures i < |base| && v.hds[i].num == v.extents[i] && i + v.hds[i].num <= |base|
    ensures Inv(Give(v, i), base)
  {
    assert InExtent(v.extents, i, i);
    assert BlockOk(v, base, i);
    var n := v.extents[i];
    var v' := Give(v, i);
    forall k | i <= k < i + n ensures v.used[k] {
      assert InExtent(v.extents, i, k) && BlockOk(v, base, k);
    }
    CountPaint(v.used, i, i + n - 1);
    forall k | 0 <= k < |base| ensures BlockOk(v', base, k) {
      assert BlockOk(v, base, k);
      TakenAfterGive(v.extents, i, |base|, k);
      assert i <= k < i + n ==> InExtent(v.extents, i, k);
      assert k in v.extents ==> InExtent(v.extents, k, k);
    }
    forall h: nat, g: nat, k: nat | InExtent(v'.extents, h, k) && InExtent(v'.extents, g, k) ensures h == g {
      assert InExtent(v.extents, h, k) && InExtent(v.extents, g, k);
    }
  }

  // ---------- what allocation and release mean ----------

  /** Two different live extents share no block. */
  lemma ExtentsDisjoint(v: Blocks, base: seq<bool>, h: nat, g: nat)
    requires Inv(v, base) && h in v.extents && g in v.extents && h != g
    ensures h + v.extents[h] <= g || g + v.extents[g] <= h
  {
    var i := if h < g then g else h;
    assert InExtent(v.extents, i, i);
    assert InExtent(v.extents, if h < g then h else g, i) ==> h == g;
  }

  /** Allocating a run and freeing its first block restores every bit, header and counter. */
  lemma TakeThenGive(v: Blocks, base: seq<bool>, s: nat, n: nat)
    requires Inv(v, base) && n > 0 && Candidate(v.used, n, s)
    ensures Give(Take(v, s, n), s) == v
  {
    FreshRun(v, base, s, n);
    var v' := Take(v, s, n);
    var v'' := Give(v', s);
    assert v''.used == v.used;
    forall i | 0 <= i < |v.hds| ensures v''.hds[i] == v.hds[i] {
      assert BlockOk(v, base, i);
      if s <= i < s + n {
        assert i !in v.extents by { assert i in v.extents ==> InExtent(v.extents, i, i); assert !Taken(v.extents, i); }
      }
    }
    assert v''.extents == v.extents;
  }

  /** Freeing an initialised block that heads no live extent changes nothing. */
  lemma GiveNonHead(v: Blocks, base: seq<bool>, i: nat)
    requires Inv(v, base) && i < |base| && !base[i] && i !in v.extents
    ensures i + v.hds[i].num <= |base| && Give(v, i) == v
  {
    assert BlockOk(v, base, i);
  }

  /**
  Freeing any block keeps the allocator consistent exactly when the block was
  initialised or its leftover header length is zero; only a leftover length can reach
  past the last block.
  */
  lemma GiveKeepsIff(v: Blocks, base: seq<bool>, i: nat)
    requires Inv(v, base) && i < |base|
    ensures Inv(Give(v, i), base) <==> !base[i] || v.hds[i].num == 0
    ensures i + v.hds[i].num > |base| ==> base[i]
  {
    if !base[i] {
      if i in v.extents { GiveInv(v, base, i); } else { GiveNonHead(v, base, i); }
    } else if v.hds[i].num != 0 {
      var v' := Give(v, i);
      assert !v'.used[i];
      assert !BlockOk(v', base, i);
    }
  }

  /** One block that initialisation skipped, over memory that held a length of 1: freeing it breaks the count. */
  lemma LeftoverLengthBreaks()
    ensures var v := Blocks([true], [Hd(TagFree, 1, 0, 0)], 0, map[]);
      Inv(v, [true]) && !Inv(Give(v, 0), [true]) && Give(v, 0).free == 1
  {
    var v := Blocks([true], [Hd(TagFree, 1, 0, 0)], 0, map[]);
    assert CountSet([true]) == 1 by { assert [true][..0] == []; }
    forall i | 0 <= i < 1 ensures BlockOk(v, [true], i) {
      assert !Taken(map[], i);
    }
    GiveKeepsIff(v, [true], 0);
  }

  // ---------- the in-use check of wd_mempool_free ----------

  lemma {:induction false} CountSubset(a: seq<bool>, b: seq<bool>)
    requires |a| == |b| && forall i :: 0 <= i < |a| && a[i] ==> b[i]
    ensures CountSet(a) <= CountSet(b)
    ensures CountSet(a) == CountSet(b) ==> a == b
  {
    if a != [] {
      var n := |a| - 1;
      CountSubset(a[..n], b[..n]);
      if CountSet(a) == CountSet(b) {
        assert a == a[..n] + [a[n]] && b == b[..n] + [b[n]];
      }
    }
  }

  /** free_blk_num equals the number of usable blocks exactly when no extent is live. */
  lemma DestroyCheck(v: Blocks, base: seq<bool>)
    requires Inv(v, base)
    ensures v.free == |base| - CountSet(base) <==> v.extents == map[]
    ensures v.free <= |base| - CountSet(base)
  {
    forall i | 0 <= i < |base| && base[i] ensures v.used[i] { assert BlockOk(v, base, i); }
    CountSubset(base, v.used);
    if v.extents != map[] {
      var h :| h in v.extents;
      assert InExtent(v.extents, h, h) && BlockOk(v, base, h);
      assert v.used[h] && !base[h];
    }
    if v.extents == map[] {
      forall i | 0 <= i < |base| ensures v.used[i] == base[i] {
        assert BlockOk(v, base, i);
      }
      assert v.used == base;
    }
  }

  // ---------- the search ----------

  /** The end points of a run are as far apart in DMA space as in virtual space. */
  predicate Spans(hds: seq<Hd>, n: nat, s: nat)
    requires n > 0 && s + n <= |hds|
  {
    n == 1 || (hds[s + n - 1].dma - hds[s].dma) % U64 == (hds[s + n - 1].va - hds[s].va) % U64
  }

  predicate Good(v: Blocks, n: nat, s: nat)
    requires n > 0 && |v.used| == |v.hds|
  {
    Candidate(v.used, n, s) && Spans(v.hds, n, s)
  }

  /** Free runs starting below s that fail the DMA test. */
  function BadBelow(v: Blocks, n: nat, s: nat): (c: nat)
    requires n > 0 && |v.used| == |v.hds|
  {
    if s == 0 then 0
    else BadBelow(v, n, s - 1) + if Candidate(v.used, n, s - 1) && !Spans(v.hds, n, s - 1) then 1 else 0
  }

  lemma {:induction false} BadGrows(v: Blocks, n: nat, s: nat, t: nat)
    requires n > 0 && |v.used| == |v.hds| && s <= t
    ensures BadBelow(v, n, s) <= BadBelow(v, n, t)
    decreases t
  {
    if s < t { BadGrows(v, n, s, t - 1); }
  }

  ghost predicate NoGood(v: Blocks, n: nat, below: nat)
    requires n > 0 && |v.used| == |v.hds|
  {
    forall s :: 0 <= s < below ==> !Good(v, n, s)
  }
}
