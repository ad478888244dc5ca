/**
The context ranges of wd_util.c: every NUMA node has, for each mode and operation type, a
number of contexts; filling the table gives them consecutive index ranges, from which
mode and type are later read back.
*/
module CtxTable {
  datatype Range = Range(begin: int, end: int, size: nat)

  /** struct wd_env_config_per_numa. */
  datatype Node = Node(hasTable: bool, sync: seq<Range>, async: seq<Range>, syncNum: nat, asyncNum: nat)

  datatype Mode = Sync | Async

  function Sum(rs: seq<Range>): (n: nat) {
    if rs == [] then 0 else Sum(rs[..|rs| - 1]) + rs[|rs| - 1].size
  }

  /** Contexts of a node; a node without a table has none. */
  function Contexts(n: Node): nat {
    if n.hasTable then Sum(n.sync) + Sum(n.async) else 0
  }

  function Total(nodes: seq<Node>): (n: nat) {
    if nodes == [] then 0 else Total(nodes[..|nodes| - 1]) + Contexts(nodes[|nodes| - 1])
  }

  predicate SameSizes(a: seq<Range>, b: seq<Range>) {
    |a| == |b| && forall i :: 0 <= i < |a| ==> a[i].size == b[i].size
  }

  lemma {:induction false} SameSum(a: seq<Range>, b: seq<Range>)
    requires SameSizes(a, b)
    ensures Sum(a) == Sum(b)
    decreases |a|
  {
    if a != [] {
      SameSum(a[..|a| - 1], b[..|b| - 1]);
    }
  }

  // ---------- what a filled table looks like ----------

  /** Range i begins where the ranges before it end; empty ranges keep no position. */
  ghost predicate Laid(rs: seq<Range>, start: int) {
    forall i :: 0 <= i < |rs| && rs[i].size > 0 ==>
      rs[i].begin == start + Sum(rs[..i]) && rs[i].end == rs[i].begin + rs[i].size - 1
  }

  ghost predicate NodeLaid(n: Node, start: int) {
    && Laid(n.sync, start) && Laid(n.async, start + Sum(n.sync))
    && n.syncNum == Sum(n.sync) && n.asyncNum == Sum(n.async)
  }

  ghost predicate SameShape(a: Node, b: Node) {
    a.hasTable == b.hasTable && SameSizes(a.sync, b.sync) && SameSizes(a.async, b.async)
  }

  predicate Has(r: Range, idx: int) {
    r.begin <= idx <= r.end && r.size > 0
  }

  // ---------- filling ----------

  /** The summing loop of set_ctx_index. */
  method SumSizes(rs: seq<Range>) returns (sum: nat)
    ensures sum == Sum(rs)
  {
    sum := 0;
    var i := 0;
    while i < |rs|
      invariant 0 <= i <= |rs| && sum == Sum(rs[..i])
    {
      assert rs[..i + 1][..i] == rs[..i];
      sum := sum + rs[i].size;
      i := i + 1;
    }
    assert rs[..|rs|] == rs;
  }

  /** The ranges in a row from start. */
  ghost function Placed(rs: seq<Range>, start: nat): (out: seq<Range>)
    ensures |out| == |rs|
    decreases |rs|
  {
    if rs == [] then []
    else
      var m := |rs| - 1;
      Placed(rs[..m], start) + [PlaceOne(rs[m], start + Sum(rs[..m]))]
  }

  function PlaceOne(r: Range, at: nat): Range {
    if r.size == 0 then r else Range(at, at + r.size - 1, r.size)
  }

  lemma {:induction false} PlacedLaid(rs: seq<Range>, start: nat)
    ensures SameSizes(Placed(rs, start), rs) && Laid(Placed(rs, start), start)
    decreases |rs|
  {
    hide *;
    if rs == [] {
      NothingPlaced(start);
    } else {
      var m := |rs| - 1;
      assert rs[..m + 1] == rs == rs[..m] + [rs[m]];
      PlacedNext(rs, start, m);
      PlacedLaid(rs[..m], start);
      var front, last := Placed(rs[..m], start), PlaceOne(rs[m], start + Sum(rs[..m]));
      SameSum(front, rs[..m]);
      OnePlaced(rs[m], start + Sum(rs[..m]));
      LaidPush(front, start, last);
      SameSizesPush(front, rs[..m], last, rs[m]);
    }
  }

  lemma OnePlaced(r: Range, at: nat)
    ensures var p := PlaceOne(r, at);
      p.size == r.size && (r.size > 0 ==> p.begin == at && p.end == at + r.size - 1)
  {
  }

  lemma SameSizesPush(a: seq<Range>, b: seq<Range>, x: Range, y: Range)
    requires SameSizes(a, b) && x.size == y.size
    ensures SameSizes(a + [x], b + [y])
  {
  }

  lemma LaidPush(rs: seq<Range>, start: int, r: Range)
    requires Laid(rs, start)
    requires r.size > 0 ==> r.begin == start + Sum(rs) && r.end == r.begin + r.size - 1
    ensures Laid(rs + [r], start)
  {
    forall i | 0 <= i <= |rs| ensures (rs + [r])[..i] == rs[..i] {
    }
    assert rs[..|rs|] == rs;
  }

  lemma {:induction false} PlacedNothing(rs: seq<Range>, start: nat)
    requires Sum(rs) == 0
    ensures Placed(rs, start) == rs
    decreases |rs|
  {
    if rs != [] {
      PlacedNothing(rs[..|rs| - 1], start);
    }
  }

  lemma NothingPlaced(start: nat)
    ensures Placed([], start) == [] && Sum([]) == 0 && SameSizes([], []) && Laid([], start)
  {
  }

  lemma PlacedNext(rs: seq<Range>, start: nat, i: nat)
    requires i < |rs|
    ensures Placed(rs[..i + 1], start) == Placed(rs[..i], start) + [PlaceOne(rs[i], start + Sum(rs[..i]))]
    ensures Sum(rs[..i + 1]) == Sum(rs[..i]) + rs[i].size
  {
    assert rs[..i + 1][..i] == rs[..i];
  }

  /** set_ctx_index for one mode of one node. */
  method SetCtxIndex(rs: seq<Range>, start: nat) returns (out: seq<Range>, sum: nat, next: nat)
    ensures SameSizes(out, rs) && Laid(out, start) && sum == Sum(rs) && next == start + sum
  {
    hide *;
    PlacedLaid(rs, start);
    sum := SumSizes(rs);
    out, next := rs, start;
    if sum == 0 {
      PlacedNothing(rs, start);
      return;
    }
    PlacedBegin(rs, start);
    var i := 0;
    while i < |rs|
      invariant 0 <= i <= |rs| && |out| == |rs|
      invariant out == Placed(rs[..i], start) + rs[i..] && next == start + Sum(rs[..i])
    {
      PlacedStep(rs, start, i, out);
      var size := rs[i].size;
      if size != 0 {
        out := out[i := Range(next, next + size - 1, size)];
        next := next + size;
      }
      i := i + 1;
    }
    assert rs[..i] == rs && rs[i..] == [];
    assert out == Placed(rs, start);
  }

  lemma PlacedBegin(rs: seq<Range>, start: nat)
    ensures Placed(rs[..0], start) + rs[0..] == rs && Sum(rs[..0]) == 0
  {
    NothingPlaced(start);
    assert rs[..0] == [] && rs[0..] == rs;
  }

  /** One turn of the placing loop. */
  lemma PlacedStep(rs: seq<Range>, start: nat, i: nat, out: seq<Range>)
    requires i < |rs| && out == Placed(rs[..i], start) + rs[i..]
    ensures |out| == |rs| && Sum(rs[..i + 1]) == Sum(rs[..i]) + rs[i].size
    ensures var at, size := start + Sum(rs[..i]), rs[i].size;
      (if size != 0 then out[i := Range(at, at + size - 1, size)] else out) == Placed(rs[..i + 1], start) + rs[i + 1..]
  {
    PlacedNext(rs, start, i);
    hide Placed, Sum;
    assert rs[i..] == [rs[i]] + rs[i + 1..];
  }

  /** get_start_ctx_index: contexts of the nodes before i. */
  method StartIndex(nodes: array<Node>, i: nat) returns (start: nat)
    requires i <= nodes.Length
    requires forall k :: 0 <= k < i ==> nodes[k].syncNum + nodes[k].asyncNum == Contexts(nodes[k])
    ensures start == Total(nodes[..i])
  {
    start := 0;
    var k := 0;
    while k < i
      invariant 0 <= k <= i && start == Total(nodes[..k])
    {
      assert nodes[..k + 1][..k] == nodes[..k];
      start := start + nodes[k].syncNum + nodes[k].asyncNum;
      k := k + 1;
    }
  }

  lemma {:induction false} SameTotal(a: seq<Node>, b: seq<Node>)
    requires |a| == |b| && forall i :: 0 <= i < |a| ==> SameShape(a[i], b[i])
    ensures Total(a) == Total(b)
    decreases |a|
  {
    if a != [] {
      var m := |a| - 1;
      SameTotal(a[..m], b[..m]);
      SameContexts(a[m], b[m]);
    }
  }

  lemma SameContexts(a: Node, b: Node)
    requires SameShape(a, b)
    ensures Contexts(a) == Contexts(b)
  {
    SameSum(a.sync, b.sync);
    SameSum(a.async, b.async);
  }

  /** What wd_fill_ctx_table establishes for one node. */
  ghost predicate Filled(n: Node, start: int) {
    if n.hasTable then NodeLaid(n, start) else n.syncNum == 0 && n.asyncNum == 0
  }

  /** One turn of wd_fill_ctx_table: the synchronous ranges, then the asynchronous ones. */
  method FillNode(n: Node, start: nat) returns (filled: Node)
    requires n.hasTable
    ensures SameShape(filled, n) && Filled(filled, start)
  {
    hide SameSizes, Laid, Sum;
    var sync, s1, next := SetCtxIndex(n.sync, start);
    var async, s2, last := SetCtxIndex(n.async, next);
    SameSum(sync, n.sync);
    SameSum(async, n.async);
    filled := Node(true, sync, async, s1, s2);
  }

  lemma FilledCounts(n: Node, start: int)
    requires Filled(n, start)
    ensures n.syncNum + n.asyncNum == Contexts(n)
  {
  }

  /** wd_fill_ctx_table on tables without contexts counted yet in nodes that have no table. */
  method FillCtxTable(nodes: array<Node>)
    requires forall i :: 0 <= i < nodes.Length && !nodes[i].hasTable ==> nodes[i].syncNum == 0 && nodes[i].asyncNum == 0
    modifies nodes
    ensures forall i :: 0 <= i < nodes.Length ==>
      SameShape(nodes[i], old(nodes[i])) && Filled(nodes[i], Total(old(nodes[..i])))
  {
    hide SameShape, Filled, Contexts, Total;
    ghost var was := nodes[..];
    var i := 0;
    while i < nodes.Length
      invariant 0 <= i <= nodes.Length
      invariant forall k :: 0 <= k < i ==> SameShape(nodes[k], was[k]) && Filled(nodes[k], Total(was[..k]))
      invariant forall k :: i <= k < nodes.Length ==> nodes[k] == was[k]
    {
      if nodes[i].hasTable {
        SameTotal(nodes[..i], was[..i]);
        forall k | 0 <= k < i ensures nodes[k].syncNum + nodes[k].asyncNum == Contexts(nodes[k]) {
          FilledCounts(nodes[k], Total(was[..k]));
        }
        var start := StartIndex(nodes, i);
        nodes[i] := FillNode(nodes[i], start);
      } else {
        NoTable(nodes[i], Total(was[..i]));
      }
      i := i + 1;
    }
  }

  lemma NoTable(n: Node, start: int)
    requires !n.hasTable && n.syncNum == 0 && n.asyncNum == 0
    ensures SameShape(n, n) && Filled(n, start)
  {
  }

  // ---------- reading back ----------

  /** Indices from start on belong to exactly one range, up to the sum of the sizes. */
  lemma {:induction false} OwnerExists(rs: seq<Range>, start: int, idx: int) returns (i: nat)
    requires Laid(rs, start) && start <= idx < start + Sum(rs)
    ensures i < |rs| && Has(rs[i], idx)
    decreases |rs|
  {
    var m := |rs| - 1;
    if start + Sum(rs[..m]) <= idx {
      i := m;
    } else {
      LaidPrefix(rs, start, m);
      i := OwnerExists(rs[..m], start, idx);
    }
  }

  lemma LaidPrefix(rs: seq<Range>, start: int, m: nat)
    requires Laid(rs, start) && m <= |rs|
    ensures Laid(rs[..m], start)
  {
    forall i | 0 <= i < m ensures rs[..m][..i] == rs[..i] && rs[..m][i] == rs[i] {
    }
  }

  lemma {:induction false} SumPrefix(rs: seq<Range>, i: nat, j: nat)
    requires i < j <= |rs|
    ensures Sum(rs[..i]) + rs[i].size <= Sum(rs[..j])
    decreases j
  {
    assert rs[..j][..j - 1] == rs[..j - 1];
    if i < j - 1 {
      SumPrefix(rs, i, j - 1);
    }
  }

  lemma OwnerUnique(rs: seq<Range>, start: int, idx: int, i: nat, j: nat)
    requires Laid(rs, start) && i < |rs| && j < |rs| && Has(rs[i], idx) && Has(rs[j], idx)
    ensures i == j && start <= idx < start + Sum(rs)
  {
    SumPrefix(rs, i, |rs|);
    assert rs[..|rs|] == rs;
    if i < j {
      SumPrefix(rs, i, j);
    } else if j < i {
      SumPrefix(rs, j, i);
    }
  }

  /** get_ctx_mode. */
  method GetCtxMode(n: Node, idx: int) returns (mode: Mode)
    ensures mode.Sync? <==> exists i :: 0 <= i < |n.sync| && Has(n.sync[i], idx)
  {
    var i := 0;
    while i < |n.sync|
      invariant 0 <= i <= |n.sync| && forall k :: 0 <= k < i ==> !Has(n.sync[k], idx)
    {
      if Has(n.sync[i], idx) {
        return Sync;
      }
      i := i + 1;
    }
    return Async;
  }

  datatype OpType = Op(op: nat) | NoType

  function RangesOf(n: Node, mode: Mode): seq<Range> {
    if mode.Sync? then n.sync else n.async
  }

  /** get_op_type. */
  method GetOpType(n: Node, idx: int, mode: Mode) returns (t: OpType)
    ensures |n.sync| == 1 ==> t == Op(0)
    ensures |n.sync| != 1 && t.Op? ==>
      && t.op < |RangesOf(n, mode)| && Has(RangesOf(n, mode)[t.op], idx)
      && forall k :: 0 <= k < t.op ==> !Has(RangesOf(n, mode)[k], idx)
    ensures |n.sync| != 1 && t.NoType? ==>
      forall k :: 0 <= k < |RangesOf(n, mode)| ==> !Has(RangesOf(n, mode)[k], idx)
  {
    if |n.sync| == 1 {
      return Op(0);
    }
    var rs := RangesOf(n, mode);
    var i := 0;
    while i < |rs|
      invariant 0 <= i <= |rs| && forall k :: 0 <= k < i ==> !Has(rs[k], idx)
    {
      if Has(rs[i], idx) {
        return Op(i);
      }
      i := i + 1;
    }
    return NoType;
  }

  /**
  Every index of a filled node lies in exactly one range of one mode, and get_ctx_mode
  with get_op_type return that mode and type.
  */
  method Recover(n: Node, start: int, idx: int) returns (mode: Mode, t: OpType)
    requires NodeLaid(n, start) && |n.sync| == |n.async| && start <= idx < start + Sum(n.sync) + Sum(n.async)
    ensures t.Op? && t.op < |RangesOf(n, mode)| && Has(RangesOf(n, mode)[t.op], idx)
    ensures forall m, k :: 0 <= k < |RangesOf(n, m)| && Has(RangesOf(n, m)[k], idx) ==> m == mode && k == t.op
  {
    mode := GetCtxMode(n, idx);
    t := GetOpType(n, idx, mode);
    var owner, i := NodeOwner(n, start, idx);
    assert Has(RangesOf(n, owner)[i], idx);
    assert forall k :: 0 <= k < |n.sync| && Has(n.sync[k], idx) ==> RangesOf(n, Sync)[k] == n.sync[k];
    assert mode == owner;
  }

  lemma NodeOwner(n: Node, start: int, idx: int) returns (mode: Mode, i: nat)
    requires NodeLaid(n, start) && start <= idx < start + Sum(n.sync) + Sum(n.async)
    ensures i < |RangesOf(n, mode)| && Has(RangesOf(n, mode)[i], idx)
    ensures forall m, k :: 0 <= k < |RangesOf(n, m)| && Has(RangesOf(n, m)[k], idx) ==> m == mode && k == i
  {
    var mid := start + Sum(n.sync);
    if idx < mid {
      mode := Sync;
      i := OwnerExists(n.sync, start, idx);
    } else {
      mode := Async;
      i := OwnerExists(n.async, mid, idx);
    }
    forall m, k | 0 <= k < |RangesOf(n, m)| && Has(RangesOf(n, m)[k], idx) ensures m == mode && k == i {
      if m.Sync? {
        OwnerUnique(n.sync, start, idx, k, k);
      } else {
        OwnerUnique(n.async, mid, idx, k, k);
      }
      OwnerUnique(RangesOf(n, mode), if mode.Sync? then start else mid, idx, i, k);
    }
  }

  /** Across nodes: the index spaces of the nodes follow one another and cover 0..Total. */
  lemma {:induction false} NodeOf(nodes: seq<Node>, idx: nat) returns (i: nat)
    requires idx < Total(nodes)
    ensures i < |nodes| && Total(nodes[..i]) <= idx < Total(nodes[..i]) + Contexts(nodes[i])
    decreases |nodes|
  {
    var m := |nodes| - 1;
    if Total(nodes[..m]) <= idx {
      i := m;
    } else {
      i := NodeOf(nodes[..m], idx);
      assert nodes[..m][..i] == nodes[..i];
    }
  }

  lemma {:induction false} TotalPrefix(nodes: seq<Node>, i: nat, j: nat)
    requires i < j <= |nodes|
    ensures Total(nodes[..i]) + Contexts(nodes[i]) <= Total(nodes[..j])
    decreases j
  {
    assert nodes[..j][..j - 1] == nodes[..j - 1];
    if i < j - 1 {
      TotalPrefix(nodes, i, j - 1);
    }
  }

  lemma NodeUnique(nodes: seq<Node>, idx: nat, i: nat, j: nat)
    requires i < |nodes| && j < |nodes|
    requires Total(nodes[..i]) <= idx < Total(nodes[..i]) + Contexts(nodes[i])
    requires Total(nodes[..j]) <= idx < Total(nodes[..j]) + Contexts(nodes[j])
    ensures i == j && idx < Total(nodes)
  {
    TotalPrefix(nodes, i, |nodes|);
    assert nodes[..|nodes|] == nodes;
    if i < j {
      TotalPrefix(nodes, i, j);
    } else if j < i {
      TotalPrefix(nodes, j, i);
    }
  }
}
