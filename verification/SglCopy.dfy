/**
hisi_qm_sgl_copy towards a plain buffer: read `size` bytes from `offset` out of a
chain.  It yields that slice of the chain's bytes, cut off at the end, except when
leftover sizes lead it to the wrong start, or the 32-bit sum that decides where to
stop wraps.
*/
module SglCopy {
  import opened Bytes
  import opened Options
  import opened SglPool

  // ---------- positions in the flattened chain ----------

  /** Entries in the first k nodes. */
  ghost function Count(nodes: seq<Node>, chain: seq<nat>, k: nat): (g: nat)
    requires Within(chain, |nodes|) && Sized(nodes, chain) && k <= |chain|
  {
    |ChainSges(nodes, chain[..k])|
  }

  lemma {:induction false} NodeInChain(nodes: seq<Node>, chain: seq<nat>, k: nat)
    requires Within(chain, |nodes|) && Sized(nodes, chain) && k < |chain|
    ensures var es := ChainSges(nodes, chain); var g := Count(nodes, chain, k);
      && Count(nodes, chain, k + 1) == g + nodes[chain[k]].sumInSgl <= |es|
      && es[..g] == ChainSges(nodes, chain[..k])
      && es[g..g + nodes[chain[k]].sumInSgl] == NodeSges(nodes[chain[k]])
    decreases |chain|
  {
    var m := |chain| - 1;
    var front := chain[..m];
    assert chain[..k + 1][..k] == chain[..k];
    if k < m {
      NodeInChain(nodes, front, k);
      assert front[..k] == chain[..k] && front[..k + 1] == chain[..k + 1];
    } else {
      assert chain[..k] == front;
    }
  }

  lemma CountAll(nodes: seq<Node>, chain: seq<nat>)
    requires Within(chain, |nodes|) && Sized(nodes, chain)
    ensures Count(nodes, chain, |chain|) == |ChainSges(nodes, chain)| && Count(nodes, chain, 0) == 0
  {
    assert chain[..|chain|] == chain;
  }

  /** Bytes before entry g. */
  function Before(es: seq<Sge>, g: nat): (n: nat)
    requires g <= |es|
  {
    TotalLen(es[..g])
  }

  lemma BeforeStep(mem: Memory, es: seq<Sge>, g: nat)
    requires g < |es|
    ensures Before(es, g + 1) == Before(es, g) + es[g].len
    ensures Flat(mem, es[..g + 1]) == Flat(mem, es[..g]) + BytesAt(mem, es[g].vbuff, es[g].len)
  {
    assert es[..g + 1][..g] == es[..g];
  }

  lemma BeforeGrows(es: seq<Sge>, a: nat, b: nat)
    requires a <= b <= |es|
    ensures Before(es, a) <= Before(es, b)
  {
    assert es[..b] == es[..a] + es[a..b];
    LenConcat(es[..a], es[a..b]);
  }

  /** A prefix of the entries gives a prefix of the bytes. */
  lemma FlatPrefix(mem: Memory, es: seq<Sge>, g: nat)
    requires g <= |es|
    ensures |Flat(mem, es[..g])| == Before(es, g) <= |Flat(mem, es)|
        && Flat(mem, es)[..Before(es, g)] == Flat(mem, es[..g])
  {
    assert es == es[..g] + es[g..];
    FlatConcat(mem, es[..g], es[g..]);
  }

  /** Bytes before node k. */
  ghost function Real(nodes: seq<Node>, chain: seq<nat>, k: nat): (n: nat)
    requires Within(chain, |nodes|) && Sized(nodes, chain) && k <= |chain|
  {
    TotalLen(ChainSges(nodes, chain[..k]))
  }

  /** Leftover sizes of the nodes before node k. */
  ghost function StaleSum(stale: seq<nat>, chain: seq<nat>, k: nat): (n: nat)
    requires Within(chain, |stale|) && k <= |chain|
  {
    if k == 0 then 0 else StaleSum(stale, chain, k - 1) + stale[chain[k - 1]]
  }

  lemma RealStep(nodes: seq<Node>, chain: seq<nat>, k: nat)
    requires Within(chain, |nodes|) && Sized(nodes, chain) && k < |chain|
    ensures Count(nodes, chain, k) <= Count(nodes, chain, k + 1) <= |ChainSges(nodes, chain)|
    ensures Real(nodes, chain, k) == Before(ChainSges(nodes, chain), Count(nodes, chain, k))
    ensures Real(nodes, chain, k + 1) == Real(nodes, chain, k) + TotalLen(NodeSges(nodes[chain[k]]))
  {
    NodeInChain(nodes, chain, k);
    assert chain[..k + 1][..k] == chain[..k];
    LenConcat(ChainSges(nodes, chain[..k]), NodeSges(nodes[chain[k]]));
  }

  lemma RealEnds(nodes: seq<Node>, chain: seq<nat>)
    requires Within(chain, |nodes|) && Sized(nodes, chain)
    ensures Real(nodes, chain, 0) == 0 && Real(nodes, chain, |chain|) == TotalLen(ChainSges(nodes, chain))
  {
    assert chain[..|chain|] == chain;
  }

  lemma {:induction false} RealGrows(nodes: seq<Node>, chain: seq<nat>, a: nat, b: nat)
    requires Within(chain, |nodes|) && Sized(nodes, chain) && a <= b <= |chain|
    ensures Real(nodes, chain, a) <= Real(nodes, chain, b)
    decreases b
  {
    if a < b {
      RealGrows(nodes, chain, a, b - 1);
      RealStep(nodes, chain, b - 1);
    }
  }

  /** The leftovers up to k vanish exactly when each of them does. */
  lemma {:induction false} StaleGrows(stale: seq<nat>, chain: seq<nat>, a: nat, b: nat)
    requires Within(chain, |stale|) && a <= b <= |chain|
    ensures StaleSum(stale, chain, a) <= StaleSum(stale, chain, b)
    ensures StaleSum(stale, chain, b) == 0 <==> forall i :: 0 <= i < b ==> stale[chain[i]] == 0
    decreases b
  {
    if b > 0 {
      StaleGrows(stale, chain, if a < b then a else b - 1, b - 1);
    }
  }

  // ---------- the slice ----------

  /** size bytes from offset, cut off at the end. */
  function Slice(b: seq<Byte>, offset: nat, size: nat): (r: seq<Byte>)
    ensures |r| <= size
  {
    if offset >= |b| then []
    else if |b| - offset < size then b[offset..]
    else b[offset..offset + size]
  }

  /** Some entry starts inside the requested range and ends 2^32 bytes or more past its start. */
  ghost predicate Wraps(es: seq<Sge>, offset: nat, size: nat) {
    exists g :: 0 <= g < |es| && WrapsAt(es, offset, size, g)
  }

  ghost predicate WrapsAt(es: seq<Sge>, offset: nat, size: nat, g: nat)
    requires g < |es|
  {
    offset <= Before(es, g) < offset + size && Before(es, g + 1) - offset >= U32
  }

  /** Entries the builder makes are at most 8 MB, so staying 8 MB below 2^32 is enough. */
  lemma SmallCopiesNeverWrap(es: seq<Sge>, offset: nat, size: nat)
    requires forall k :: 0 <= k < |es| ==> es[k].len <= MAX_SGE_SIZE
    requires size + MAX_SGE_SIZE <= U32
    ensures !Wraps(es, offset, size)
  {
    forall g | 0 <= g < |es| ensures !WrapsAt(es, offset, size, g) {
      BeforeStep(_ => 0, es, g);
    }
  }

  /** Where the copy starts: entry g, `skip` bytes into it. */
  ghost predicate StartsAt(es: seq<Sge>, offset: nat, g: nat, skip: nat) {
    g < |es| && Before(es, g) + skip == offset && skip <= es[g].len
  }

  // ---------- the code ----------

  /** Where the size fields, leftovers included, say that node k begins. */
  ghost function Said(nodes: seq<Node>, chain: seq<nat>, stale: seq<nat>, k: nat): (n: nat)
    requires Within(chain, |nodes|) && |stale| == |nodes| && Sized(nodes, chain) && k <= |chain|
  {
    Real(nodes, chain, k) + StaleSum(stale, chain, k)
  }

  /** The size field of node k, when the sums stay within 64 bits. */
  lemma SaidStep(nodes: seq<Node>, chain: seq<nat>, width: nat, stale: seq<nat>, k: nat)
    requires ChainOk(nodes, chain, width, stale) && k < |chain|
    ensures Said(nodes, chain, stale, k) <= Said(nodes, chain, stale, k + 1) <= Said(nodes, chain, stale, |chain|)
    ensures Said(nodes, chain, stale, |chain|) < U64 ==>
      nodes[chain[k]].sizeInSgl == Said(nodes, chain, stale, k + 1) - Said(nodes, chain, stale, k)
  {
    hide ChainSges, Real;
    RealStep(nodes, chain, k);
    RealGrows(nodes, chain, k + 1, |chain|);
    StaleGrows(stale, chain, k + 1, |chain|);
    assert NodeOk(nodes[chain[k]], width, stale[chain[k]]);
    hide TotalLen;
  }

  /** The loop that skips whole nodes, on 64-bit sums. */
  method FindNode(nodes: seq<Node>, head: nat, ghost chain: seq<nat>, width: nat, ghost stale: seq<nat>, offset: nat)
    returns (r: Option<nat>, len: nat, ghost k: nat)
    requires ChainOk(nodes, chain, width, stale) && chain[0] == head
    ensures r.Some? ==> k < |chain| && r.value == chain[k] && len <= offset
    ensures Said(nodes, chain, stale, |chain|) < U64 ==> (r.None? <==> Said(nodes, chain, stale, |chain|) <= offset)
    ensures Said(nodes, chain, stale, |chain|) < U64 && r.Some? ==>
      len == Said(nodes, chain, stale, k) && offset < Said(nodes, chain, stale, k + 1)
  {
    hide ChainSges, Said, NodesOk;
    var cur := head;
    len, k := 0, 0;
    SaidStart(nodes, chain, stale);
    while (len + nodes[cur].sizeInSgl) % U64 <= offset
      invariant k < |chain| && cur == chain[k] && len <= offset
      invariant Said(nodes, chain, stale, |chain|) < U64 ==> len == Said(nodes, chain, stale, k)
      decreases |chain| - k
    {
      SaidStep(nodes, chain, width, stale, k);
      assert nodes[chain[k]].next == if k + 1 < |chain| then Some(chain[k + 1]) else None;
      len := (len + nodes[cur].sizeInSgl) % U64;
      k := k + 1;
      var next := nodes[cur].next;
      if next.None? {
        return None, len, 0;
      }
      cur := next.value;
    }
    SaidStep(nodes, chain, width, stale, k);
    return Some(cur), len, k;
  }

  lemma SaidStart(nodes: seq<Node>, chain: seq<nat>, stale: seq<nat>)
    requires Within(chain, |nodes|) && |stale| == |nodes| && Sized(nodes, chain)
    ensures Said(nodes, chain, stale, 0) == 0
  {
    RealEnds(nodes, chain);
  }

  /** The entry d bytes into the node and the position in it; behind the last one, at zero, when d is too large. */
  ghost predicate Found(es: seq<Sge>, d: nat, begin: nat, skip: nat) {
    && (d < TotalLen(es) ==> begin < |es| && Before(es, begin) + skip == d && skip < es[begin].len)
    && (d == TotalLen(es) && es != [] ==> begin == |es| && skip == 0)
    && (d > TotalLen(es) || es == [] ==> begin == 0 && skip == 0)
  }

  /** Entry i of a node reaches to d bytes or beyond. */
  lemma FoundHere(es: seq<Sge>, d: nat, i: nat)
    requires i < |es| && Before(es, i) <= d && (i > 0 ==> Before(es, i) < d)
    requires forall k :: 0 <= k < |es| ==> es[k].len > 0
    ensures Before(es, i + 1) == Before(es, i) + es[i].len
    ensures d < Before(es, i + 1) ==> Found(es, d, i, d - Before(es, i))
    ensures d == Before(es, i + 1) ==> Found(es, d, i + 1, 0)
    ensures i + 1 == |es| && Before(es, i + 1) < d ==> Found(es, d, 0, 0)
  {
    BeforeStep(_ => 0, es, i);
    assert es[..|es|] == es;
    BeforeGrows(es, i + 1, |es|);
    if i + 1 < |es| {
      BeforeStep(_ => 0, es, i + 1);
      BeforeGrows(es, i + 2, |es|);
    }
    hide TotalLen;
  }

  /** The loop that finds the first entry inside the node. */
  method FindSge(node: Node, width: nat, ghost stale: nat, start: nat, offset: nat) returns (begin: nat, skip: nat)
    requires NodeOk(node, width, stale) && start <= offset
    ensures Found(NodeSges(node), offset - start, begin, skip)
  {
    ghost var es := NodeSges(node);
    assert TotalLen([]) == 0 && es[..0] == [];
    hide TotalLen, Found;
    var len := start;
    begin, skip := 0, 0;
    NothingFound(es, offset - start);
    var i := 0;
    while i < node.sumInSgl
      invariant i <= node.sumInSgl && len == start + Before(es, i) <= offset
      invariant i > 0 ==> len < offset
      invariant i == node.sumInSgl ==> Found(es, offset - start, 0, 0)
    {
      FoundHere(es, offset - start, i);
      if len + node.sges[i].len > offset {
        return i, offset - len;
      }
      if len + node.sges[i].len == offset {
        return i + 1, 0;
      }
      len := len + node.sges[i].len;
      i := i + 1;
    }
  }

  lemma NothingFound(es: seq<Sge>, d: nat)
    ensures es == [] ==> Found(es, d, 0, 0)
  {
  }

  // ---------- when the start is the right one ----------

  datatype Place = Nowhere | At(k: nat, begin: nat, skip: nat)

  /** What the two searches find, when the sums stay within 64 bits. */
  ghost predicate Located(nodes: seq<Node>, chain: seq<nat>, stale: seq<nat>, offset: nat, p: Place)
    requires Within(chain, |nodes|) && |stale| == |nodes| && Sized(nodes, chain)
  {
    match p
    case Nowhere => Said(nodes, chain, stale, |chain|) <= offset
    case At(k, begin, skip) =>
      && k < |chain| && Said(nodes, chain, stale, k) <= offset < Said(nodes, chain, stale, k + 1)
      && Found(NodeSges(nodes[chain[k]]), offset - Said(nodes, chain, stale, k), begin, skip)
  }

  /** The place of byte `offset` of the chain, or nowhere behind its last byte. */
  ghost predicate RightPlace(nodes: seq<Node>, chain: seq<nat>, offset: nat, p: Place)
    requires Within(chain, |nodes|) && Sized(nodes, chain)
  {
    match p
    case Nowhere => TotalLen(ChainSges(nodes, chain)) <= offset
    case At(k, begin, skip) =>
      && k < |chain| && begin < nodes[chain[k]].sumInSgl
      && Real(nodes, chain, k) + Before(NodeSges(nodes[chain[k]]), begin) + skip == offset
  }

  /** The byte lies before the end of every node with a leftover, or the sizes say it is behind the chain. */
  ghost predicate Reachable(nodes: seq<Node>, chain: seq<nat>, stale: seq<nat>, offset: nat)
    requires Within(chain, |nodes|) && |stale| == |nodes| && Sized(nodes, chain)
  {
    || Said(nodes, chain, stale, |chain|) <= offset
    || forall j :: 0 <= j < |chain| && stale[chain[j]] != 0 ==> offset < Real(nodes, chain, j + 1)
  }

  lemma PlaceRight(nodes: seq<Node>, chain: seq<nat>, width: nat, stale: seq<nat>, offset: nat, p: Place)
    requires ChainOk(nodes, chain, width, stale) && Located(nodes, chain, stale, offset, p)
    requires Reachable(nodes, chain, stale, offset)
    ensures RightPlace(nodes, chain, offset, p)
  {
    hide ChainSges, Real, NodesOk, Linked, TotalLen;
    RealEnds(nodes, chain);
    if p.At? {
      var k := p.k;
      SaidStep(nodes, chain, width, stale, k);
      RealStep(nodes, chain, k);
      forall i | 0 <= i < k ensures stale[chain[i]] == 0 {
        SaidStep(nodes, chain, width, stale, i);
        RealGrows(nodes, chain, i + 1, k);
      }
      StaleGrows(stale, chain, k, k);
    }
  }

  lemma PlaceWrong(nodes: seq<Node>, chain: seq<nat>, width: nat, stale: seq<nat>, offset: nat, p: Place)
    requires ChainOk(nodes, chain, width, stale) && Located(nodes, chain, stale, offset, p)
    requires !Reachable(nodes, chain, stale, offset)
    ensures !RightPlace(nodes, chain, offset, p)
  {
    hide *;
    ChainFacts(nodes, chain, width, stale);
    var j := LateStale(nodes, chain, stale, offset);
    if RightPlace(nodes, chain, offset, p) {
      FoundRight(nodes, chain, width, stale, offset, p);
      StaleGrows(stale, chain, p.k, p.k);
      RealGrows(nodes, chain, if j < p.k then j + 1 else p.k + 1, j + 1);
    }
  }

  lemma LateStale(nodes: seq<Node>, chain: seq<nat>, stale: seq<nat>, offset: nat) returns (j: nat)
    requires Within(chain, |nodes|) && |stale| == |nodes| && Sized(nodes, chain)
        && !Reachable(nodes, chain, stale, offset)
    ensures j < |chain| && stale[chain[j]] != 0 && Real(nodes, chain, j + 1) <= offset
    ensures offset < Said(nodes, chain, stale, |chain|)
  {
    j :| 0 <= j < |chain| && stale[chain[j]] != 0 && Real(nodes, chain, j + 1) <= offset;
  }

  /** A right place that the searches found: no leftover before its node, and the byte is in that node. */
  lemma FoundRight(nodes: seq<Node>, chain: seq<nat>, width: nat, stale: seq<nat>, offset: nat, p: Place)
    requires ChainOk(nodes, chain, width, stale) && Located(nodes, chain, stale, offset, p)
    requires RightPlace(nodes, chain, offset, p) && offset < Said(nodes, chain, stale, |chain|)
    ensures p.At? && p.k < |chain| && StaleSum(stale, chain, p.k) == 0 && offset < Real(nodes, chain, p.k + 1)
  {
    var k := p.k;
    var es := NodeSges(nodes[chain[k]]);
    assert Before(es, 0) == 0;
    RealStep(nodes, chain, k);
    FirstPositive(nodes, chain, width, stale, k);
    hide ChainSges, Real, NodesOk, Linked, TotalLen, Before, Sized;
  }

  lemma FirstPositive(nodes: seq<Node>, chain: seq<nat>, width: nat, stale: seq<nat>, k: nat)
    requires ChainOk(nodes, chain, width, stale) && k < |chain|
    ensures nodes[chain[k]].sumInSgl > 0 ==> TotalLen(NodeSges(nodes[chain[k]])) > 0
  {
    var n := nodes[chain[k]];
    assert NodeOk(n, width, stale[chain[k]]);
    assert n.sumInSgl > 0 ==> NodeSges(n)[|NodeSges(n)| - 1].len > 0;
  }

  /** The start is right for every offset if and only if no node of the chain had a leftover. */
  lemma AlwaysReachableIff(nodes: seq<Node>, chain: seq<nat>, width: nat, stale: seq<nat>)
    requires ChainOk(nodes, chain, width, stale)
    ensures (forall offset: nat :: Reachable(nodes, chain, stale, offset)) <==> Clean(stale, chain)
  {
    hide ChainSges, Real, NodesOk, Linked, TotalLen;
    if !Clean(stale, chain) {
      var j :| 0 <= j < |chain| && stale[chain[j]] != 0;
      SaidStep(nodes, chain, width, stale, j);
      assert !Reachable(nodes, chain, stale, Real(nodes, chain, j + 1));
    }
  }

  /** Without leftovers, on chains that fit a 32-bit pool, the sums stay within 64 bits. */
  lemma CleanFits(nodes: seq<Node>, chain: seq<nat>, width: nat, stale: seq<nat>)
    requires ChainOk(nodes, chain, width, stale) && Clean(stale, chain) && |chain| < U32 && width <= MAX_SGE_NUM
    ensures Said(nodes, chain, stale, |chain|) < U64
  {
    StaleGrows(stale, chain, |chain|, |chain|);
    RealBound(nodes, chain, width, stale, |chain|);
  }

  lemma {:induction false} RealBound(nodes: seq<Node>, chain: seq<nat>, width: nat, stale: seq<nat>, k: nat)
    requires ChainOk(nodes, chain, width, stale) && k <= |chain| && width <= MAX_SGE_NUM
    ensures Real(nodes, chain, k) <= k * 0x7F80_0000
  {
    hide ChainSges, Real, NodesOk, Linked;
    RealEnds(nodes, chain);
    if k > 0 {
      RealBound(nodes, chain, width, stale, k - 1);
      RealStep(nodes, chain, k - 1);
      assert NodesOk(nodes, chain, width, stale);
      OneNode(nodes, chain, width, stale, k - 1);
    }
  }

  lemma OneNode(nodes: seq<Node>, chain: seq<nat>, width: nat, stale: seq<nat>, k: nat)
    requires ChainOk(nodes, chain, width, stale) && k < |chain| && width <= MAX_SGE_NUM
    ensures TotalLen(NodeSges(nodes[chain[k]])) <= 0x7F80_0000
  {
    assert NodeOk(nodes[chain[k]], width, stale[chain[k]]);
    NodeBytes(NodeSges(nodes[chain[k]]));
  }

  /** Progress of the copy: entries up to g are copied from offset on. */
  ghost predicate CopiedTo(mem: Memory, es: seq<Sge>, offset: nat, g: nat, out: seq<Byte>) {
    g <= |es| && offset <= Before(es, g) && out == Flat(mem, es[..g])[offset..]
  }

  lemma CopyEntry(mem: Memory, es: seq<Sge>, offset: nat, g: nat, out: seq<Byte>)
    requires g < |es| && CopiedTo(mem, es, offset, g, out)
    ensures CopiedTo(mem, es, offset, g + 1, out + BytesAt(mem, es[g].vbuff, es[g].len))
    ensures |out| == Before(es, g) - offset
  {
    BeforeStep(mem, es, g);
  }

  lemma CopyLast(mem: Memory, es: seq<Sge>, offset: nat, size: nat, g: nat, out: seq<Byte>)
    requires g < |es| && CopiedTo(mem, es, offset, g, out) && |out| <= size <= |out| + es[g].len
    ensures out + BytesAt(mem, es[g].vbuff, size - |out|) == Slice(Flat(mem, es), offset, size)
  {
    hide Flat;
    CopyEntry(mem, es, offset, g, out);
    BeforeStep(mem, es, g);
    FlatPrefix(mem, es, g + 1);
    var more := out + BytesAt(mem, es[g].vbuff, es[g].len);
    PrefixSlice(Flat(mem, es), Before(es, g + 1), offset, size, more);
    assert more[..size] == out + BytesAt(mem, es[g].vbuff, size - |out|);
  }

  lemma PrefixSlice(all: seq<Byte>, n: nat, offset: nat, size: nat, part: seq<Byte>)
    requires offset <= n <= |all| && part == all[..n][offset..] && size <= |part|
    ensures Slice(all, offset, size) == part[..size]
  {
    if offset < |all| {
      assert all[offset..offset + size] == part[..size];
    }
  }

  lemma CopyAll(mem: Memory, es: seq<Sge>, offset: nat, size: nat, out: seq<Byte>)
    requires CopiedTo(mem, es, offset, |es|, out) && |out| <= size
    ensures out == Slice(Flat(mem, es), offset, size)
  {
    assert es[..|es|] == es;
  }

  lemma NoWrapStop(es: seq<Sge>, offset: nat, size: nat, g: nat)
    requires g < |es| && offset + size <= Before(es, g + 1) < offset + U32
    ensures !Wraps(es, offset, size)
  {
    forall j | 0 <= j < |es| ensures !WrapsAt(es, offset, size, j) {
      if j <= g { BeforeGrows(es, j + 1, g + 1); } else { BeforeGrows(es, g + 1, j); }
    }
  }

  lemma NoWrapEnd(es: seq<Sge>, offset: nat, size: nat)
    requires Before(es, |es|) < offset + U32
    ensures !Wraps(es, offset, size)
  {
    forall j | 0 <= j < |es| ensures !WrapsAt(es, offset, size, j) {
      BeforeGrows(es, j + 1, |es|);
    }
  }

  /** Entry i of node k in the flattened chain. */
  lemma EntryAt(nodes: seq<Node>, chain: seq<nat>, width: nat, stale: seq<nat>, k: nat, i: nat)
    requires ChainOk(nodes, chain, width, stale) && k < |chain| && i < nodes[chain[k]].sumInSgl
    ensures var g := Count(nodes, chain, k) + i;
      && g < Count(nodes, chain, k + 1) <= |ChainSges(nodes, chain)|
      && ChainSges(nodes, chain)[g] == nodes[chain[k]].sges[i]
  {
    hide ChainSges;
    NodeInChain(nodes, chain, k);
    var es, g := ChainSges(nodes, chain), Count(nodes, chain, k);
    assert es[g..g + nodes[chain[k]].sumInSgl][i] == es[g + i];
  }

  /** Where the copy stands: node k, entry i, all below the requested size. */
  ghost predicate Cursor(nodes: seq<Node>, chain: seq<nat>, width: nat, stale: seq<nat>, mem: Memory, offset: nat,
                         k: nat, i: nat, cur: Option<nat>, out: seq<Byte>) {
    && ChainOk(nodes, chain, width, stale) && k <= |chain|
    && cur == (if k < |chain| then Some(chain[k]) else None)
    && (if k < |chain| then i <= nodes[chain[k]].sumInSgl else i == 0)
    && CopiedTo(mem, ChainSges(nodes, chain), offset, Count(nodes, chain, k) + i, out)
  }

  /** Passing from the last entry of a node to the next node. */
  lemma NextNode(nodes: seq<Node>, chain: seq<nat>, width: nat, stale: seq<nat>, mem: Memory, offset: nat,
                 k: nat, out: seq<Byte>)
    requires k < |chain| && ChainOk(nodes, chain, width, stale)
    requires Cursor(nodes, chain, width, stale, mem, offset, k, nodes[chain[k]].sumInSgl, Some(chain[k]), out)
    ensures Cursor(nodes, chain, width, stale, mem, offset, k + 1, 0, nodes[chain[k]].next, out)
  {
    hide ChainSges;
    NodeInChain(nodes, chain, k);
  }

  /** More than the requested bytes were written: all of them from pos on, 2^32 or more. */
  ghost predicate Overrun(flat: seq<Byte>, pos: nat, size: nat, out: seq<Byte>) {
    size < U32 <= |out| && pos + |out| <= |flat| && out == flat[pos..pos + |out|]
  }

  lemma SmallEntry(nodes: seq<Node>, chain: seq<nat>, width: nat, stale: seq<nat>, k: nat, i: nat)
    requires ChainOk(nodes, chain, width, stale) && k < |chain| && i < nodes[chain[k]].sumInSgl
    ensures 0 < nodes[chain[k]].sges[i].len < U32
  {
    assert NodeOk(nodes[chain[k]], width, stale[chain[k]]);
  }

  lemma CopiedOverrun(mem: Memory, es: seq<Sge>, pos: nat, size: nat, g: nat, out: seq<Byte>)
    requires CopiedTo(mem, es, pos, g, out) && size < U32 <= |out|
    ensures Overrun(Flat(mem, es), pos, size, out)
  {
    FlatPrefix(mem, es, g);
    hide Flat;
    assert Flat(mem, es)[..Before(es, g)][pos..] == Flat(mem, es)[pos..Before(es, g)];
  }

  /**
  hisi_qm_sgl_copy_inner after its first entry.  When the wrapped sum misses the stop, the
  whole entry is copied, behind the end of the buffer; the model stops there.
  */
  method CopyRest(nodes: seq<Node>, ghost chain: seq<nat>, width: nat, ghost stale: seq<nat>, mem: Memory,
                  ghost pos: nat, size: nat, first: nat, begin: nat, ghost k0: nat, sofar: seq<Byte>)
    returns (out: seq<Byte>, overran: bool)
    requires Cursor(nodes, chain, width, stale, mem, pos, k0, begin, Some(first), sofar)
    requires |sofar| < size < U32
    ensures overran <==> Wraps(ChainSges(nodes, chain), pos, size)
    ensures !overran ==> out == Slice(Flat(mem, ChainSges(nodes, chain)), pos, size)
    ensures overran ==> Overrun(Flat(mem, ChainSges(nodes, chain)), pos, size, out)
  {
    hide ChainSges, Flat, Linked, NodesOk, Overrun;
    ghost var es := ChainSges(nodes, chain);
    var tmp := Some(first);
    var i: nat := begin;
    ghost var k: nat := k0;
    out := sofar;
    while tmp.Some?
      invariant Cursor(nodes, chain, width, stale, mem, pos, k, i, tmp, out) && |out| < size
      decreases |chain| - k
    {
      var node := nodes[tmp.value];
      while i < node.sumInSgl
        invariant Cursor(nodes, chain, width, stale, mem, pos, k, i, tmp, out) && |out| < size
      {
        var e := node.sges[i];
        ghost var g := Count(nodes, chain, k) + i;
        EntryAt(nodes, chain, width, stale, k, i);
        CopyEntry(mem, es, pos, g, out);
        BeforeStep(mem, es, g);
        var sum := |out| + e.len;
        SmallEntry(nodes, chain, width, stale, k, i);
        if sum % U32 >= size {
          NoWrapStop(es, pos, size, g);
          CopyLast(mem, es, pos, size, g, out);
          return out + BytesAt(mem, e.vbuff, size - |out|), false;
        }
        assert sum >= size ==> WrapsAt(es, pos, size, g);
        out := out + BytesAt(mem, e.vbuff, e.len);
        if sum >= size {
          CopiedOverrun(mem, es, pos, size, g + 1, out);
          return out, true;
        }
        i := i + 1;
      }
      NextNode(nodes, chain, width, stale, mem, pos, k, out);
      tmp := node.next;
      i := 0;
      k := k + 1;
    }
    CountAll(nodes, chain);
    assert es[..|es|] == es;
    NoWrapEnd(es, pos, size);
    CopyAll(mem, es, pos, size, out);
    overran := false;
  }

  lemma ChainFacts(nodes: seq<Node>, chain: seq<nat>, width: nat, stale: seq<nat>)
    requires ChainOk(nodes, chain, width, stale)
    ensures |stale| == |nodes| && Within(chain, |nodes|) && chain != [] && Sized(nodes, chain)
  {
  }

  lemma NodeAt(nodes: seq<Node>, chain: seq<nat>, width: nat, stale: seq<nat>, k: nat)
    requires ChainOk(nodes, chain, width, stale) && k < |chain|
    ensures chain[k] < |nodes| == |stale| && nodes[chain[k]].sumInSgl <= |nodes[chain[k]].sges|
    ensures NodeOk(nodes[chain[k]], width, stale[chain[k]])
  {
  }

  lemma FoundSkip(node: Node, width: nat, stale: nat, d: nat, begin: nat, skip: nat)
    requires NodeOk(node, width, stale) && Found(NodeSges(node), d, begin, skip) && begin < node.sumInSgl
    ensures skip < node.sges[begin].len
  {
  }

  lemma IsLocated(nodes: seq<Node>, chain: seq<nat>, stale: seq<nat>, offset: nat, p: Place, len: nat)
    requires Within(chain, |nodes|) && |stale| == |nodes| && Sized(nodes, chain) && p.At? && p.k < |chain|
    requires len == Said(nodes, chain, stale, p.k) <= offset < Said(nodes, chain, stale, p.k + 1)
    requires Found(NodeSges(nodes[chain[p.k]]), offset - len, p.begin, p.skip)
    ensures Located(nodes, chain, stale, offset, p)
  {
  }

  lemma BeganNot(nodes: seq<Node>, chain: seq<nat>, width: nat, stale: seq<nat>, offset: nat)
    requires ChainOk(nodes, chain, width, stale)
    requires Said(nodes, chain, stale, |chain|) <= offset
    ensures Reachable(nodes, chain, stale, offset) && offset >= TotalLen(ChainSges(nodes, chain))
  {
    RealEnds(nodes, chain);
  }

  lemma BeganStray(nodes: seq<Node>, chain: seq<nat>, width: nat, stale: seq<nat>, offset: nat, p: Place)
    requires ChainOk(nodes, chain, width, stale) && p.At? && Located(nodes, chain, stale, offset, p)
    requires p.begin >= nodes[chain[p.k]].sumInSgl
    ensures !Reachable(nodes, chain, stale, offset)
  {
    hide Reachable, Located;
    if Reachable(nodes, chain, stale, offset) {
      PlaceRight(nodes, chain, width, stale, offset, p);
    }
  }

  lemma BeganAt(nodes: seq<Node>, chain: seq<nat>, width: nat, stale: seq<nat>, offset: nat, p: Place)
    requires ChainOk(nodes, chain, width, stale) && p.At? && Located(nodes, chain, stale, offset, p)
    requires p.begin < nodes[chain[p.k]].sumInSgl && p.skip < nodes[chain[p.k]].sges[p.begin].len
    ensures var pos := Real(nodes, chain, p.k) + Before(NodeSges(nodes[chain[p.k]]), p.begin) + p.skip;
      Reachable(nodes, chain, stale, offset) <==> pos == offset < TotalLen(ChainSges(nodes, chain))
  {
    PosInside(nodes, chain, width, stale, p);
    hide Reachable, Located, ChainSges, Real, TotalLen;
    if Reachable(nodes, chain, stale, offset) {
      PlaceRight(nodes, chain, width, stale, offset, p);
    } else {
      PlaceWrong(nodes, chain, width, stale, offset, p);
    }
  }

  /** A position inside an entry of node k lies inside the chain. */
  lemma PosInside(nodes: seq<Node>, chain: seq<nat>, width: nat, stale: seq<nat>, p: Place)
    requires ChainOk(nodes, chain, width, stale) && p.At? && p.k < |chain|
    requires p.begin < nodes[chain[p.k]].sumInSgl && p.skip < nodes[chain[p.k]].sges[p.begin].len
    ensures Real(nodes, chain, p.k) + Before(NodeSges(nodes[chain[p.k]]), p.begin) + p.skip
        < TotalLen(ChainSges(nodes, chain))
  {
    hide ChainSges, Real, Linked, NodesOk;
    var n := nodes[chain[p.k]];
    RealStep(nodes, chain, p.k);
    RealGrows(nodes, chain, p.k + 1, |chain|);
    RealEnds(nodes, chain);
    assert NodeSges(n)[..n.sumInSgl] == NodeSges(n);
    BeforeStep(_ => 0, NodeSges(n), p.begin);
    BeforeGrows(NodeSges(n), p.begin + 1, n.sumInSgl);
  }

  /** The place of entry `begin` of node k among all entries. */
  lemma BeganStart(nodes: seq<Node>, chain: seq<nat>, width: nat, stale: seq<nat>, k: nat, begin: nat,
                   skip: nat, pos: nat)
    requires ChainOk(nodes, chain, width, stale) && k < |chain|
    requires begin < nodes[chain[k]].sumInSgl && skip < nodes[chain[k]].sges[begin].len
    requires pos == Real(nodes, chain, k) + Before(NodeSges(nodes[chain[k]]), begin) + skip
    ensures var es := ChainSges(nodes, chain); var g := Count(nodes, chain, k) + begin;
      && g < |es| && StartsAt(es, pos, g, skip) && es[g] == nodes[chain[k]].sges[begin]
      && Before(es, g + 1) == pos + (es[g].len - skip)
  {
    NodeAt(nodes, chain, width, stale, k);
    EntryAt(nodes, chain, width, stale, k, begin);
    RealStep(nodes, chain, k);
    StartPosition(nodes, chain, width, stale, k, begin);
    BeforeStep(_ => 0, ChainSges(nodes, chain), Count(nodes, chain, k) + begin);
    hide ChainSges, ChainOk, Before, NodeSges, Real, Count, Flat, NodeOk;
  }

  lemma CursorHere(nodes: seq<Node>, chain: seq<nat>, width: nat, stale: seq<nat>, mem: Memory, pos: nat,
                   k: nat, i: nat, out: seq<Byte>)
    requires ChainOk(nodes, chain, width, stale) && k < |chain| && i <= nodes[chain[k]].sumInSgl
    requires CopiedTo(mem, ChainSges(nodes, chain), pos, Count(nodes, chain, k) + i, out)
    ensures Cursor(nodes, chain, width, stale, mem, pos, k, i, Some(chain[k]), out)
  {
  }

  /** Where the copying began: at a byte of the chain, at an entry nobody filled, or not at all. */
  datatype Began = From(pos: nat) | Stray | Not

  /**
  hisi_qm_sgl_copy, chain to plain buffer: the bytes it writes.  From where it begins it
  yields the slice exactly when no deciding sum wraps, and otherwise writes past the
  requested size; it begins at the right place exactly when Reachable says so.
  */
  method CopyOut(nodes: seq<Node>, head: nat, ghost chain: seq<nat>, width: nat, ghost stale: seq<nat>,
                 mem: Memory, offset: nat, size: nat) returns (out: seq<Byte>, overran: bool, ghost began: Began)
    requires ChainOk(nodes, chain, width, stale) && chain[0] == head && size < U32
    ensures size == 0 ==> began == Not
    ensures size == 0 ==> out == [] && !overran
    ensures size > 0 && Said(nodes, chain, stale, |chain|) < U64 && Reachable(nodes, chain, stale, offset) ==>
      var es := ChainSges(nodes, chain);
      if TotalLen(es) <= offset then out == [] && !overran
      else if Wraps(es, offset, size) then overran && Overrun(Flat(mem, es), offset, size, out)
      else !overran && out == Slice(Flat(mem, es), offset, size)
    ensures size > 0 && Said(nodes, chain, stale, |chain|) < U64 ==>
      (began == (if offset < TotalLen(ChainSges(nodes, chain)) then From(offset) else Not)
       <==> Reachable(nodes, chain, stale, offset))
    ensures began.From? ==> (overran <==> Wraps(ChainSges(nodes, chain), began.pos, size))
    ensures began.From? && !overran ==> out == Slice(Flat(mem, ChainSges(nodes, chain)), began.pos, size)
    ensures overran ==> began.From? && Overrun(Flat(mem, ChainSges(nodes, chain)), began.pos, size, out)
    ensures began.Not? ==> out == [] && !overran
  {
    hide *;
    ChainFacts(nodes, chain, width, stale);
    if size == 0 {
      return [], false, Not;
    }
    var at, len, k := FindNode(nodes, head, chain, width, stale, offset);
    if at.None? {
      if Said(nodes, chain, stale, |chain|) < U64 {
        BeganNot(nodes, chain, width, stale, offset);
      }
      return [], false, Not;
    }
    NodeAt(nodes, chain, width, stale, k);
    var node := nodes[at.value];
    var begin, skip := FindSge(node, width, stale[chain[k]], len, offset);
    ghost var p := At(k, begin, skip);
    ghost var exact := Said(nodes, chain, stale, |chain|) < U64;
    if exact {
      IsLocated(nodes, chain, stale, offset, p, len);
    }
    if begin >= node.sumInSgl {
      if exact {
        BeganStray(nodes, chain, width, stale, offset, p);
      }
      return [], false, Stray;
    }
    var e := node.sges[begin];
    ghost var es, g := ChainSges(nodes, chain), Count(nodes, chain, k) + begin;
    ghost var pos := Real(nodes, chain, k) + Before(NodeSges(node), begin) + skip;
    began := From(pos);
    FoundSkip(node, width, stale[chain[k]], offset - len, begin, skip);
    if exact {
      BeganAt(nodes, chain, width, stale, offset, p);
    }
    SmallEntry(nodes, chain, width, stale, k, begin);
    BeganStart(nodes, chain, width, stale, k, begin, skip, pos);
    FirstEntry(mem, es, pos, size, g, skip);
    var rest := e.len - skip;
    if rest >= size {
      NoWrapStop(es, pos, size, g);
      return BytesAt(mem, e.vbuff + skip, size), false, From(pos);
    }
    CursorHere(nodes, chain, width, stale, mem, pos, k, begin + 1, BytesAt(mem, e.vbuff + skip, rest));
    out, overran := CopyRest(nodes, chain, width, stale, mem, pos, size, at.value, begin + 1, k,
                             BytesAt(mem, e.vbuff + skip, rest));
  }

  lemma StartPosition(nodes: seq<Node>, chain: seq<nat>, width: nat, stale: seq<nat>, k: nat, i: nat)
    requires ChainOk(nodes, chain, width, stale) && k < |chain| && i <= nodes[chain[k]].sumInSgl
    ensures var es := ChainSges(nodes, chain); var g := Count(nodes, chain, k);
      g + i <= |es| && Before(es, g + i) == Before(es, g) + Before(NodeSges(nodes[chain[k]]), i)
  {
    hide ChainSges;
    NodeInChain(nodes, chain, k);
    var es, g := ChainSges(nodes, chain), Count(nodes, chain, k);
    var n := nodes[chain[k]];
    assert NodeSges(n)[..i] == n.sges[..i];
    assert es[g..g + n.sumInSgl] == NodeSges(n);
    assert es[g..g + i] == es[g..g + n.sumInSgl][..i];
    assert es[..g + i] == es[..g] + es[g..g + i];
    LenConcat(es[..g], es[g..g + i]);
  }

  /** The first, partial entry: all of the answer, or the start of it. */
  lemma FirstEntry(mem: Memory, es: seq<Sge>, offset: nat, size: nat, g: nat, skip: nat)
    requires StartsAt(es, offset, g, skip)
    ensures CopiedTo(mem, es, offset, g + 1, BytesAt(mem, es[g].vbuff + skip, es[g].len - skip))
    ensures size <= es[g].len - skip ==> BytesAt(mem, es[g].vbuff + skip, size) == Slice(Flat(mem, es), offset, size)
  {
    hide Flat;
    BeforeStep(mem, es, g);
    FlatPrefix(mem, es, g);
    FlatPrefix(mem, es, g + 1);
    var whole := BytesAt(mem, es[g].vbuff, es[g].len);
    var part := BytesAt(mem, es[g].vbuff + skip, es[g].len - skip);
    assert whole[skip..] == part;
    assert Flat(mem, es[..g + 1])[offset..] == part;
    if size <= |part| {
      PrefixSlice(Flat(mem, es), Before(es, g + 1), offset, size, part);
      assert part[..size] == BytesAt(mem, es[g].vbuff + skip, size);
    }
  }

  /**
  Building a chain from a user list and copying (offset, size) out of it: exactly that
  slice of the list's bytes when none of the nodes taken had a leftover size, and from the
  right place exactly when Reachable says so.
  */
  method BuildThenCopy(pool: Pool, list: seq<Sge>, mapOk: Sge -> bool, mem: Memory, offset: nat, size: nat)
    returns (r: BuildResult, out: seq<Byte>, overran: bool, ghost began: Began)
    requires pool.Valid() && list != [] && pool.depth < U32 && size + MAX_SGE_SIZE <= U32
    modifies pool
    ensures pool.Valid() && SameKind(r, Verdict(list, mapOk, pool.width, Avail(old(pool.free), pool.mapped)))
    ensures r.Built? ==>
      && |pool.live| == |old(pool.live)| + 1
      && var chain := pool.live[|old(pool.live)|];
      && ChainOk(pool.nodes, chain, pool.width, pool.stale) && pool.stale == old(pool.stale) && !overran
      && ChainSges(pool.nodes, chain) == Data(list) && |chain| == NodesNeeded(list, pool.width)
      && (Clean(pool.stale, chain) ==> out == Slice(ListBytes(mem, list), offset, size))
      && (size > 0 && Said(pool.nodes, chain, pool.stale, |chain|) < U64 ==>
            (began == (if offset < |ListBytes(mem, list)| then From(offset) else Not)
             <==> Reachable(pool.nodes, chain, pool.stale, offset)))
      && (began.From? ==> out == Slice(ListBytes(mem, list), began.pos, size))
  {
    hide Slice, Wraps, Said, Reachable, ChainOk, Sized, Within, ChainSges, Data, Flat, ListBytes, TotalLen, Clean;
    hide Verdict, Overrun, NodesNeeded, NodeOk, pool.Valid, pool.Core;
    out, overran, began := [], false, Not;
    r := pool.GetHwSgl(list, mapOk);
    if r.Built? {
      ghost var chain := pool.live[|old(pool.live)|];
      ChainFacts(pool.nodes, chain, pool.width, pool.stale);
      out, overran, began := CopyOut(pool.nodes, r.head, chain, pool.width, pool.stale, mem, offset, size);
      BuiltFacts(pool.nodes, chain, pool.width, pool.stale, mem, list);
      ghost var es := ChainSges(pool.nodes, chain);
      if began.From? {
        BuiltNoWrap(list, mapOk, pool.width, Avail(old(pool.free), pool.mapped), began.pos, size);
      }
      if Clean(pool.stale, chain) {
        PoolParts(pool, |pool.live| - 1);
        CleanFits(pool.nodes, chain, pool.width, pool.stale);
        AlwaysReachableIff(pool.nodes, chain, pool.width, pool.stale);
        EmptySlice(Flat(mem, es), offset, size);
      }
    }
  }

  const TWO: seq<Sge> := [Sge(10, 2), Sge(20, 2)]

  /** Two nodes of one entry each, fresh memory with 5 in every size field: byte 3 is not where the copy begins. */
  method LeftoverMisleads(mem: Memory) returns (out: seq<Byte>, ghost began: Began)
    ensures 3 < |ListBytes(mem, TWO)| && began != From(3)
  {
    var pool := new Pool(2, 1, Sge(0, 0), _ => 5, _ => true);
    AvailAllIff(pool.free, pool.mapped);
    TwoFacts(mem);
    hide ListBytes, Data, NodesNeeded, Reachable, Said, ChainOk, Clean, Slice, Verdict, TWO, ChainSges, Within, Sized;
    hide pool.Valid, pool.Core;
    var r, overran;
    r, out, overran, began := BuildThenCopy(pool, TWO, _ => true, mem, 3, 1);
    TwoUnreachable(pool.nodes, pool.live[0], pool.stale);
  }

  lemma TwoFacts(mem: Memory)
    ensures Data(TWO) == TWO != [] && |ListBytes(mem, TWO)| == 4 && TotalLen(TWO) == 4 && Before(TWO, 1) == 2
    ensures NodesNeeded(TWO, 1) == 2 && Verdict(TWO, _ => true, 1, 2).Built?
  {
    assert TWO[..1] == [Sge(10, 2)] && TWO[..1][..0] == [] && TWO[..2] == TWO;
    assert Data(TWO[..1]) == [Sge(10, 2)] by { assert Data(TWO[..1]) == [] + [Sge(10, 2)]; }
    assert TotalLen(TWO[..1]) == 2;
    DataBytes(mem, TWO);
    assert NodesNeeded(TWO, 1) == 2;
    var mapOk: Sge -> bool := _ => true;
    FirstBadIs(TWO, mapOk, 2);
    hide FirstBad, NodesNeeded;
  }

  lemma TwoUnreachable(nodes: seq<Node>, chain: seq<nat>, stale: seq<nat>)
    requires ChainOk(nodes, chain, 1, stale) && |chain| == 2 && ChainSges(nodes, chain) == Data(TWO)
    requires forall i :: 0 <= i < |stale| ==> stale[i] == 5
    ensures Said(nodes, chain, stale, |chain|) < U64 && !Reachable(nodes, chain, stale, 3)
  {
    TwoFacts(_ => 0);
    hide ChainSges, Data, TWO, TotalLen, NodesNeeded, Verdict;
    RealEnds(nodes, chain);
    RealStep(nodes, chain, 0);
    RealStep(nodes, chain, 1);
    NodeInChain(nodes, chain, 0);
    CountAll(nodes, chain);
    assert NodeOk(nodes[chain[0]], 1, stale[chain[0]]);
    BeforeGrows(TWO, Count(nodes, chain, 1), 1);
    assert StaleSum(stale, chain, 1) == 5 && StaleSum(stale, chain, 2) == 10;
    assert Real(nodes, chain, 1) <= 2;
  }

  /** n entries of the largest size. */
  function Big(n: nat): (es: seq<Sge>)
    ensures |es| == n && forall k :: 0 <= k < n ==> es[k] == Sge(1, MAX_SGE_SIZE)
  {
    seq(n, _ => Sge(1, MAX_SGE_SIZE))
  }

  lemma {:induction false} BigBytes(n: nat, g: nat)
    requires g <= n
    ensures Before(Big(n), g) == g * MAX_SGE_SIZE
    decreases g
  {
    if g > 0 {
      BigBytes(n, g - 1);
      BeforeStep(_ => 0, Big(n), g - 1);
    }
  }

  /** Reading 2^32 - 1 bytes out of 512 entries of 8 MB steps over the stop. */
  lemma LargeCopyWraps()
    ensures Wraps(Big(512), 0, U32 - 1)
  {
    BigBytes(512, 511);
    BigBytes(512, 512);
    assert WrapsAt(Big(512), 0, U32 - 1, 511);
  }

  lemma PoolParts(pool: Pool, c: nat)
    requires pool.Valid() && c < |pool.live| && pool.depth < U32
    ensures |pool.live[c]| < U32 && pool.width <= MAX_SGE_NUM
  {
    ConcatLong(pool.live, c);
  }

  lemma {:induction false} ConcatLong(live: seq<seq<nat>>, c: nat)
    requires c < |live|
    ensures |live[c]| <= |Concat(live)|
    decreases |live|
  {
    if c < |live| - 1 { ConcatLong(live[..|live| - 1], c); }
  }

  lemma BuiltFacts(nodes: seq<Node>, chain: seq<nat>, width: nat, stale: seq<nat>, mem: Memory, list: seq<Sge>)
    requires ChainOk(nodes, chain, width, stale) && ChainSges(nodes, chain) == Data(list)
    ensures Flat(mem, ChainSges(nodes, chain)) == ListBytes(mem, list)
    ensures TotalLen(ChainSges(nodes, chain)) == |ListBytes(mem, list)|
  {
    hide ChainSges, NodesOk, Linked;
    DataBytes(mem, list);
  }

  /** A built list has small entries only. */
  lemma BuiltNoWrap(list: seq<Sge>, mapOk: Sge -> bool, width: nat, free: nat, pos: nat, size: nat)
    requires list != [] && width > 0 && Verdict(list, mapOk, width, free).Built? && size + MAX_SGE_SIZE <= U32
    ensures !Wraps(Data(list), pos, size)
  {
    hide NodesNeeded, Data, Wraps;
    var u := FirstBad(list, mapOk);
    assert u == |list|;
    forall k | 0 <= k < |list| && !Skipped(list[k]) ensures list[k].len <= MAX_SGE_SIZE {
      AcceptableMeans(list[k], mapOk);
    }
    DataSmall(list);
    SmallCopiesNeverWrap(Data(list), pos, size);
  }

  lemma EmptySlice(b: seq<Byte>, offset: nat, size: nat)
    ensures offset >= |b| || size == 0 ==> Slice(b, offset, size) == []
  {
  }

  /** The bytes of a user list, its NULL buffers left out. */
  function ListBytes(mem: Memory, list: seq<Sge>): (b: seq<Byte>) {
    if list == [] then []
    else
      var e := list[|list| - 1];
      ListBytes(mem, list[..|list| - 1]) + if e.vbuff == 0 then [] else BytesAt(mem, e.vbuff, e.len)
  }

  lemma {:induction false} DataSmall(list: seq<Sge>)
    requires forall k :: 0 <= k < |list| && !Skipped(list[k]) ==> list[k].len <= MAX_SGE_SIZE
    ensures forall k :: 0 <= k < |Data(list)| ==> Data(list)[k].len <= MAX_SGE_SIZE
  {
    if list != [] { DataSmall(list[..|list| - 1]); }
  }

  lemma {:induction false} DataBytes(mem: Memory, list: seq<Sge>)
    ensures Flat(mem, Data(list)) == ListBytes(mem, list)
  {
    if list != [] {
      var front, e := list[..|list| - 1], list[|list| - 1];
      DataBytes(mem, front);
      var d := Data(front);
      if Skipped(e) {
        assert e.len == 0 ==> BytesAt(mem, e.vbuff, e.len) == [];
        assert Data(list) == d + [] == d;
        assert ListBytes(mem, list) == ListBytes(mem, front) + [] == ListBytes(mem, front);
      } else {
        FlatConcat(mem, d, [e]);
        FlatOne(mem, e);
      }
    }
  }

  lemma FlatOne(mem: Memory, e: Sge)
    ensures Flat(mem, [e]) == BytesAt(mem, e.vbuff, e.len)
  {
    assert [e][..0] == [];
    assert Flat(mem, [e][..0]) == [];
  }
}
