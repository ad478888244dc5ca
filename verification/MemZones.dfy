/**
Memzones of wd_mempool.c: which mempool bits a list of zones occupies, how the
list grows and shrinks, and where the blocks cut from a zone lie in memory.
*/
module MemZones {

  /** blkNum blocks of a block pool, stored in mempool blocks begin..end inclusive. */
  datatype Zone = Zone(addr: int, blkNum: nat, begin: nat, end: nat)

  predicate Covers(z: Zone, p: int) {
    z.begin <= p <= z.end
  }

  predicate Apart(a: Zone, b: Zone) {
    a.end < b.begin || b.end < a.begin
  }

  function SumLen(zs: seq<Zone>): (n: int)
    requires forall i :: 0 <= i < |zs| ==> zs[i].begin <= zs[i].end
    ensures n >= 0
  {
    if zs == [] then 0 else SumLen(zs[..|zs| - 1]) + (Last(zs).end - Last(zs).begin + 1)
  }

  function Last(zs: seq<Zone>): Zone
    requires zs != []
  {
    zs[|zs| - 1]
  }

  ghost predicate Occupied(zs: seq<Zone>, p: int) {
    exists i :: 0 <= i < |zs| && Covers(zs[i], p)
  }

  /** A bit is set exactly when it lies in a zone, and no two zones meet. */
  ghost predicate Tiled(bits: seq<bool>, zs: seq<Zone>) {
    && (forall i :: 0 <= i < |zs| ==> zs[i].begin <= zs[i].end < |bits|)
    && (forall i, j :: 0 <= i < j < |zs| ==> Apart(zs[i], zs[j]))
    && (forall p :: 0 <= p < |bits| ==> bits[p] == Occupied(zs, p))
  }

  /** bits with begin..end inclusive set to v. */
  function Paint(bits: seq<bool>, begin: nat, end: nat, v: bool): (r: seq<bool>)
    ensures |r| == |bits|
  {
    seq(|bits|, p requires 0 <= p < |bits| => if begin <= p <= end then v else bits[p])
  }

  lemma TiledPush(bits: seq<bool>, zs: seq<Zone>, z: Zone)
    requires Tiled(bits, zs) && z.begin <= z.end < |bits|
    requires forall p :: z.begin <= p <= z.end ==> !bits[p]
    ensures Tiled(Paint(bits, z.begin, z.end, true), zs + [z])
  {
    var zs' := zs + [z];
    var bits' := Paint(bits, z.begin, z.end, true);
    forall i | 0 <= i < |zs| ensures Apart(zs[i], z) {
      var p := if zs[i].begin < z.begin then z.begin else zs[i].begin;
      if Covers(zs[i], p) {
        assert bits[p];
      }
    }
    forall p | 0 <= p < |bits| ensures bits'[p] == Occupied(zs', p) {
      if Covers(z, p) {
        assert Covers(zs'[|zs|], p);
      } else if Occupied(zs, p) {
        var i :| 0 <= i < |zs| && Covers(zs[i], p);
        assert Covers(zs'[i], p);
      }
    }
  }

  function Without(zs: seq<Zone>, k: nat): (r: seq<Zone>)
    requires k < |zs|
    ensures |r| == |zs| - 1
    ensures forall i :: 0 <= i < |r| ==> r[i] == zs[if i < k then i else i + 1]
  {
    zs[..k] + zs[k + 1..]
  }

  lemma OccupiedWithout(zs: seq<Zone>, k: nat, p: int)
    requires k < |zs| && forall i, j :: 0 <= i < j < |zs| ==> Apart(zs[i], zs[j])
    ensures Occupied(Without(zs, k), p) <==> Occupied(zs, p) && !Covers(zs[k], p)
  {
    var zs' := Without(zs, k);
    if Occupied(zs', p) {
      var i :| 0 <= i < |zs'| && Covers(zs'[i], p);
      var j := if i < k then i else i + 1;
      assert Covers(zs[j], p);
      assert if j < k then Apart(zs[j], zs[k]) else Apart(zs[k], zs[j]);
    }
    if Occupied(zs, p) && !Covers(zs[k], p) {
      var i :| 0 <= i < |zs| && Covers(zs[i], p);
      assert Covers(zs'[if i < k then i else i - 1], p);
    }
  }

  lemma TiledRemove(bits: seq<bool>, zs: seq<Zone>, k: nat)
    requires Tiled(bits, zs) && k < |zs|
    ensures Tiled(Paint(bits, zs[k].begin, zs[k].end, false), Without(zs, k))
  {
    forall p | 0 <= p < |bits|
      ensures Paint(bits, zs[k].begin, zs[k].end, false)[p] == Occupied(Without(zs, k), p)
    {
      OccupiedWithout(zs, k, p);
    }
  }

  /** The set bits are exactly accounted for by the zone lengths. */
  function CountSet(bits: seq<bool>): (n: nat)
    ensures n <= |bits|
  {
    if bits == [] then 0 else CountSet(bits[..|bits| - 1]) + (if bits[|bits| - 1] then 1 else 0)
  }

  lemma {:induction false} CountPaint(bits: seq<bool>, begin: nat, end: nat)
    requires begin <= end < |bits| && forall p :: begin <= p <= end ==> bits[p]
    ensures CountSet(Paint(bits, begin, end, false)) == CountSet(bits) - (end - begin + 1)
    decreases |bits|
  {
    var n := |bits| - 1;
    var bits' := Paint(bits, begin, end, false);
    if end < n {
      assert bits'[..n] == Paint(bits[..n], begin, end, false);
      CountPaint(bits[..n], begin, end);
    } else if begin == end {
      assert bits'[..n] == bits[..n];
    } else {
      assert bits'[..n] == Paint(bits[..n], begin, end - 1, false);
      CountPaint(bits[..n], begin, end - 1);
    }
  }

  lemma {:induction false} CountNone(bits: seq<bool>)
    requires forall p :: 0 <= p < |bits| ==> !bits[p]
    ensures CountSet(bits) == 0
  {
    if bits != [] { CountNone(bits[..|bits| - 1]); }
  }

  lemma {:induction false} TiledCount(bits: seq<bool>, zs: seq<Zone>)
    requires Tiled(bits, zs)
    ensures CountSet(bits) == SumLen(zs)
    decreases |zs|
  {
    if zs == [] {
      CountNone(bits);
    } else {
      var k := |zs| - 1;
      assert Without(zs, k) == zs[..k];
      TiledRemove(bits, zs, k);
      forall p | zs[k].begin <= p <= zs[k].end ensures bits[p] { assert Covers(zs[k], p); }
      CountPaint(bits, zs[k].begin, zs[k].end);
      TiledCount(Paint(bits, zs[k].begin, zs[k].end, false), zs[..k]);
    }
  }

  lemma {:induction false} SumLenRemove(zs: seq<Zone>, k: nat)
    requires k < |zs| && forall i :: 0 <= i < |zs| ==> zs[i].begin <= zs[i].end
    ensures SumLen(Without(zs, k)) == SumLen(zs) - (zs[k].end - zs[k].begin + 1)
    decreases |zs|
  {
    var n := |zs| - 1;
    var zs' := Without(zs, k);
    if k == n {
      assert zs' == zs[..n];
    } else {
      var front := zs[..n];
      assert zs'[..|zs'| - 1] == Without(front, k);
      SumLenRemove(front, k);
    }
  }
}
