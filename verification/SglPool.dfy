/**
Hardware scatter-gather lists of drv/hisi_qm_udrv.c: a stack of fixed-width nodes,
a builder that turns a user list into a chain of them, and the copy that reads a
slice of the data back through the chain.
*/
module SglPool {
  import opened Options
  import opened Sequences
  import opened Bytes
  import ModArith

  /** HISI_MAX_SIZE_IN_SGE and HISI_SGE_NUM_IN_SGL. */
  const MAX_SGE_SIZE: nat := 0x80_0000
  const MAX_SGE_NUM: nat := 255
  const U16: nat := 0x1_0000
  const U32: nat := 0x1_0000_0000
  const U64: nat := 0x1_0000_0000_0000_0000

  /** Memory as bytes by address. */
  type Memory = int -> Byte

  /** A scatter-gather entry, and equally one element of the user's list; address 0 is NULL. */
  datatype Sge = Sge(vbuff: nat, len: nat)

  /** struct hisi_sgl: sumInChain has 16 bits, sizeInSgl 64. */
  datatype Node = Node(next: Option<nat>, sumInChain: nat, sumInSgl: nat, sizeInSgl: nat, sges: seq<Sge>)

  datatype BuildResult = Built(head: nat) | Busy | Invalid

  // ---------- lists of entries ----------

  predicate Skipped(e: Sge) {
    e.vbuff == 0 || e.len == 0
  }

  /** The user entries that hold data. */
  function Data(list: seq<Sge>): (r: seq<Sge>) {
    if list == [] then []
    else Data(list[..|list| - 1]) + if Skipped(list[|list| - 1]) then [] else [list[|list| - 1]]
  }

  function TotalLen(es: seq<Sge>): (n: nat) {
    if es == [] then 0 else TotalLen(es[..|es| - 1]) + es[|es| - 1].len
  }

  function BytesAt(mem: Memory, addr: int, len: nat): (b: seq<Byte>)
    ensures |b| == len
  {
    seq(len, i => mem(addr + i))
  }

  /** The bytes an entry list stands for. */
  function Flat(mem: Memory, es: seq<Sge>): (b: seq<Byte>)
    ensures |b| == TotalLen(es)
  {
    if es == [] then []
    else Flat(mem, es[..|es| - 1]) + BytesAt(mem, es[|es| - 1].vbuff, es[|es| - 1].len)
  }

  lemma {:induction false} LenConcat(a: seq<Sge>, b: seq<Sge>)
    ensures TotalLen(a + b) == TotalLen(a) + TotalLen(b)
    decreases |b|
  {
    if b == [] {
      assert a + b == a;
    } else {
      assert (a + b)[..|a + b| - 1] == a + b[..|b| - 1];
      LenConcat(a, b[..|b| - 1]);
    }
  }

  lemma {:induction false} FlatConcat(mem: Memory, a: seq<Sge>, b: seq<Sge>)
    ensures Flat(mem, a + b) == Flat(mem, a) + Flat(mem, b)
    decreases |b|
  {
    if b == [] {
      assert a + b == a;
    } else {
      var m := |b| - 1;
      FlatConcat(mem, a, b[..m]);
      FlatLast(mem, b);
      FlatLast(mem, a + b);
      assert (a + b)[..|a + b| - 1] == a + b[..m];
      hide Flat, BytesAt, TotalLen;
      Assoc(Flat(mem, a), Flat(mem, b[..m]), BytesAt(mem, b[m].vbuff, b[m].len));
    }
  }

  lemma FlatLast(mem: Memory, es: seq<Sge>)
    requires es != []
    ensures var e := es[|es| - 1];
      Flat(mem, es) == Flat(mem, es[..|es| - 1]) + BytesAt(mem, e.vbuff, e.len)
  {
  }

  // ---------- chains ----------

  predicate Distinct(ids: seq<nat>) {
    forall i, j :: 0 <= i < j < |ids| ==> ids[i] != ids[j]
  }

  predicate Within(ids: seq<nat>, n: nat) {
    forall i :: 0 <= i < |ids| ==> ids[i] < n
  }

  /** Consecutive nodes are linked and the last one ends the chain. */
  predicate Linked(nodes: seq<Node>, chain: seq<nat>)
    requires Within(chain, |nodes|)
  {
    forall k :: 0 <= k < |chain| ==>
      nodes[chain[k]].next == if k + 1 < |chain| then Some(chain[k + 1]) else None
  }

  /** stale is what the size field held before the first entry was counted in it. */
  predicate NodeOk(n: Node, width: nat, stale: nat) {
    && n.sumInSgl <= width == |n.sges|
    && n.sizeInSgl == (stale + TotalLen(n.sges[..n.sumInSgl])) % U64
    && forall i :: 0 <= i < n.sumInSgl ==> 0 < n.sges[i].len <= MAX_SGE_SIZE
  }

  predicate NodesOk(nodes: seq<Node>, chain: seq<nat>, width: nat, stale: seq<nat>)
    requires Within(chain, |nodes|) && |stale| == |nodes|
  {
    forall k :: 0 <= k < |chain| ==> NodeOk(nodes[chain[k]], width, stale[chain[k]])
  }

  /** A chain as the builder leaves it. */
  predicate ChainOk(nodes: seq<Node>, chain: seq<nat>, width: nat, stale: seq<nat>) {
    && |stale| == |nodes| && Within(chain, |nodes|) && chain != [] && Sized(nodes, chain)
    && Linked(nodes, chain) && NodesOk(nodes, chain, width, stale)
  }

  /** No node of the chain started with a leftover size. */
  predicate Clean(stale: seq<nat>, chain: seq<nat>) {
    Within(chain, |stale|) && forall k :: 0 <= k < |chain| ==> stale[chain[k]] == 0
  }

  /** Every size field of the chain is the number of bytes in its node. */
  predicate SizesExact(nodes: seq<Node>, chain: seq<nat>)
    requires Within(chain, |nodes|) && Sized(nodes, chain)
  {
    forall k :: 0 <= k < |chain| ==> nodes[chain[k]].sizeInSgl == TotalLen(NodeSges(nodes[chain[k]]))
  }

  /** Every node but the last is full. */
  predicate Full(nodes: seq<Node>, chain: seq<nat>, width: nat)
    requires Within(chain, |nodes|)
  {
    forall k :: 0 <= k < |chain| - 1 ==> nodes[chain[k]].sumInSgl == width
  }

  /** So the chain is no longer than its entries need. */
  lemma {:induction false} FullCount(nodes: seq<Node>, chain: seq<nat>, width: nat)
    requires Within(chain, |nodes|) && Sized(nodes, chain)
    requires forall k :: 0 <= k < |chain| ==> nodes[chain[k]].sumInSgl == width
    ensures |ChainSges(nodes, chain)| == |chain| * width
    decreases |chain|
  {
    if chain != [] {
      FullCount(nodes, chain[..|chain| - 1], width);
      ModArith.Distribute(|chain| - 1, 1, width);
    }
  }

  function NodeSges(n: Node): (r: seq<Sge>)
    requires n.sumInSgl <= |n.sges|
    ensures |r| == n.sumInSgl
  {
    n.sges[..n.sumInSgl]
  }

  predicate Sized(nodes: seq<Node>, chain: seq<nat>)
    requires Within(chain, |nodes|)
  {
    forall k :: 0 <= k < |chain| ==> nodes[chain[k]].sumInSgl <= |nodes[chain[k]].sges|
  }

  /** The entries of a chain, node by node. */
  function ChainSges(nodes: seq<Node>, chain: seq<nat>): (r: seq<Sge>)
    requires Within(chain, |nodes|) && Sized(nodes, chain)
  {
    if chain == [] then []
    else ChainSges(nodes, chain[..|chain| - 1]) + NodeSges(nodes[chain[|chain| - 1]])
  }

  /** ChainSges looks only at the nodes of the chain. */
  lemma {:induction false} ChainSgesFrame(nodes: seq<Node>, nodes': seq<Node>, chain: seq<nat>)
    requires Within(chain, |nodes|) && |nodes'| == |nodes|
    requires Sized(nodes, chain) && Sized(nodes', chain)
    requires forall k :: 0 <= k < |chain| ==> NodeSame(nodes'[chain[k]], nodes[chain[k]])
    ensures ChainSges(nodes', chain) == ChainSges(nodes, chain)
    decreases |chain|
  {
    if chain != [] { ChainSgesFrame(nodes, nodes', chain[..|chain| - 1]); }
  }

  predicate NodeSame(a: Node, b: Node) {
    a.sumInSgl == b.sumInSgl && a.sges == b.sges
  }

  // ---------- the builder's two steps ----------

  /** Writing entry i of the last node. */
  function WithSge(n: Node, e: Sge): (r: Node)
    requires n.sumInSgl < |n.sges|
  {
    n.(sges := n.sges[n.sumInSgl := e], sumInSgl := n.sumInSgl + 1, sizeInSgl := (n.sizeInSgl + e.len) % U64)
  }

  lemma AppendSge(nodes: seq<Node>, chain: seq<nat>, width: nat, stale: seq<nat>, e: Sge)
    requires ChainOk(nodes, chain, width, stale) && Distinct(chain) && 0 < e.len <= MAX_SGE_SIZE
    requires nodes[chain[|chain| - 1]].sumInSgl < width
    ensures var cur := chain[|chain| - 1]; var nodes' := nodes[cur := WithSge(nodes[cur], e)];
      ChainOk(nodes', chain, width, stale) && ChainSges(nodes', chain) == ChainSges(nodes, chain) + [e]
  {
    var m := |chain| - 1;
    var cur := chain[m];
    assert NodeOk(nodes[cur], width, stale[cur]);
    var nodes' := nodes[cur := WithSge(nodes[cur], e)];
    hide NodeOk, WithSge;
    AppendToNode(nodes[cur], width, stale[cur], e);
    forall k | 0 <= k < |chain|
      ensures NodeOk(nodes'[chain[k]], width, stale[chain[k]]) && nodes'[chain[k]].next == nodes[chain[k]].next
    {
      assert NodeOk(nodes[chain[k]], width, stale[chain[k]]);
    }
    assert Within(chain[..m], |nodes|);
    ChainSgesFrame(nodes, nodes', chain[..m]);
  }

  lemma AppendToNode(n: Node, width: nat, stale: nat, e: Sge)
    requires NodeOk(n, width, stale) && n.sumInSgl < width && 0 < e.len <= MAX_SGE_SIZE
    ensures var n' := WithSge(n, e);
      && NodeOk(n', width, stale) && n'.sumInSgl <= |n'.sges| && NodeSges(n') == NodeSges(n) + [e] && n'.next == n.next
  {
    var n' := WithSge(n, e);
    assert NodeSges(n') == NodeSges(n) + [e];
    LenPush(NodeSges(n), e);
    hide TotalLen;
    SumMod(stale + TotalLen(NodeSges(n)), e.len);
  }

  lemma LenPush(es: seq<Sge>, e: Sge)
    ensures TotalLen(es + [e]) == TotalLen(es) + e.len
  {
    assert (es + [e])[..|es|] == es;
  }

  lemma SumMod(x: nat, y: nat)
    ensures (x % U64 + y) % U64 == (x + y) % U64
  {
  }

  predicate Blank(n: Node, width: nat, stale: nat) {
    n.next == None && n.sumInSgl == 0 && n.sizeInSgl == stale < U64 && n.sumInChain == width == |n.sges|
  }

  lemma ExtendChain(nodes: seq<Node>, chain: seq<nat>, width: nat, stale: seq<nat>, next: nat)
    requires ChainOk(nodes, chain, width, stale) && Distinct(chain)
    requires next < |nodes| && next !in chain && Blank(nodes[next], width, stale[next])
    ensures var cur := chain[|chain| - 1]; var nodes' := nodes[cur := nodes[cur].(next := Some(next))];
      && ChainOk(nodes', chain + [next], width, stale) && Distinct(chain + [next])
      && ChainSges(nodes', chain + [next]) == ChainSges(nodes, chain)
  {
    var cur := chain[|chain| - 1];
    var nodes' := nodes[cur := nodes[cur].(next := Some(next))];
    var chain' := chain + [next];
    BlankOk(nodes[next], width, stale[next]);
    hide Blank, NodeOk, ChainSges, NodeSges;
    forall k | 0 <= k < |chain'| ensures chain'[k] < |nodes'| && NodeOk(nodes'[chain'[k]], width, stale[chain'[k]]) {
      if k < |chain| {
        assert NodeOk(nodes[chain[k]], width, stale[chain[k]]);
        LinkOk(nodes[chain[k]], width, stale[chain[k]], Some(next));
      }
    }
    forall k | 0 <= k < |chain'| ensures nodes'[chain'[k]].sumInSgl <= |nodes'[chain'[k]].sges| {
    }
    ExtendSges(nodes, nodes', chain, next);
  }

  lemma ExtendSges(nodes: seq<Node>, nodes': seq<Node>, chain: seq<nat>, next: nat)
    requires |nodes'| == |nodes| && next < |nodes| && Within(chain, |nodes|) && Sized(nodes, chain)
    requires forall k :: 0 <= k < |chain| ==> NodeSame(nodes'[chain[k]], nodes[chain[k]])
    requires nodes'[next].sumInSgl == 0
    ensures Within(chain + [next], |nodes|) && Sized(nodes', chain + [next])
    ensures ChainSges(nodes', chain + [next]) == ChainSges(nodes, chain)
  {
    var chain' := chain + [next];
    assert chain'[..|chain|] == chain && Sized(nodes', chain);
    ChainSgesFrame(nodes, nodes', chain);
    assert NodeSges(nodes'[next]) == [];
    assert ChainSges(nodes', chain) + [] == ChainSges(nodes', chain);
  }

  lemma BlankOk(n: Node, width: nat, stale: nat)
    requires Blank(n, width, stale)
    ensures NodeOk(n, width, stale) && n.sumInSgl <= |n.sges| && NodeSges(n) == [] && n.next == None
  {
  }

  lemma LinkOk(n: Node, width: nat, stale: nat, next: Option<nat>)
    requires NodeOk(n, width, stale)
    ensures NodeOk(n.(next := next), width, stale)
  {
  }

  /** Only the nodes of a chain and their leftovers matter for it. */
  lemma ChainOkFrame(nodes: seq<Node>, nodes': seq<Node>, chain: seq<nat>, width: nat,
                     stale: seq<nat>, stale': seq<nat>)
    requires ChainOk(nodes, chain, width, stale) && |nodes'| == |nodes| == |stale'|
    requires forall k :: 0 <= k < |chain| ==> nodes'[chain[k]] == nodes[chain[k]] && stale'[chain[k]] == stale[chain[k]]
    ensures ChainOk(nodes', chain, width, stale')
  {
    hide NodeOk;
    forall k | 0 <= k < |chain| ensures NodeOk(nodes'[chain[k]], width, stale'[chain[k]]) {
      assert NodeOk(nodes[chain[k]], width, stale[chain[k]]);
    }
  }

  lemma {:induction false} NodeBytes(es: seq<Sge>)
    requires forall i :: 0 <= i < |es| ==> es[i].len <= MAX_SGE_SIZE
    ensures TotalLen(es) <= |es| * MAX_SGE_SIZE
  {
    if es != [] { NodeBytes(es[..|es| - 1]); }
  }

  /** The size fields of a built chain are right if and only if no node had a leftover. */
  lemma SizesExactIff(nodes: seq<Node>, chain: seq<nat>, width: nat, stale: seq<nat>)
    requires ChainOk(nodes, chain, width, stale) && width <= MAX_SGE_NUM
    requires forall k :: 0 <= k < |chain| ==> stale[chain[k]] < U64
    ensures SizesExact(nodes, chain) <==> Clean(stale, chain)
  {
    forall k | 0 <= k < |chain|
      ensures nodes[chain[k]].sizeInSgl == TotalLen(NodeSges(nodes[chain[k]])) <==> stale[chain[k]] == 0
    {
      var n := nodes[chain[k]];
      assert NodeOk(n, width, stale[chain[k]]);
      NodeBytes(NodeSges(n));
    }
  }

  // ---------- the pool ----------

  function Upto(n: nat): (ids: seq<nat>)
    ensures |ids| == n && forall i :: 0 <= i < n ==> ids[i] == i
  {
    if n == 0 then [] else Upto(n - 1) + [n - 1]
  }

  /** Nodes that can be taken from the stack one after the other, before it is empty or a slot is null. */
  function Avail(free: seq<nat>, mapped: seq<bool>): (n: nat)
    ensures n <= |free|
  {
    if free == [] || !Has(mapped, free[|free| - 1]) then 0 else 1 + Avail(free[..|free| - 1], mapped)
  }

  /** Slot id holds a node. */
  predicate Has(mapped: seq<bool>, id: nat) {
    id < |mapped| && mapped[id]
  }

  predicate AllHave(mapped: seq<bool>, ids: seq<nat>) {
    forall k :: 0 <= k < |ids| ==> Has(mapped, ids[k])
  }

  /** All of them exactly when no slot is null. */
  lemma {:induction false} AvailAllIff(free: seq<nat>, mapped: seq<bool>)
    ensures Avail(free, mapped) == |free| <==> AllHave(mapped, free)
    decreases |free|
  {
    if free != [] {
      var m := |free| - 1;
      AvailAllIff(free[..m], mapped);
      assert forall k :: 0 <= k < m ==> free[..m][k] == free[k];
    }
  }

  /** Taken nodes were above the ones that can be taken now. */
  lemma {:induction false} AvailTaken(free: seq<nat>, chain: seq<nat>, mapped: seq<bool>)
    requires AllHave(mapped, chain)
    ensures Avail(free + Reverse(chain), mapped) == |chain| + Avail(free, mapped)
    decreases |chain|
  {
    var was := free + Reverse(chain);
    if chain == [] {
      assert was == free;
    } else {
      assert was[|was| - 1] == chain[0];
      assert was[..|was| - 1] == free + Reverse(chain[1..]);
      AvailTaken(free, chain[1..], mapped);
    }
  }

  /** The null slot that stops the pops, if one does. */
  function NullSlot(free: seq<nat>, mapped: seq<bool>): (ids: seq<nat>)
    ensures |ids| == if Avail(free, mapped) < |free| then 1 else 0
  {
    var a := Avail(free, mapped);
    if a < |free| then [free[|free| - 1 - a]] else []
  }

  lemma {:induction false} NullIsNull(free: seq<nat>, mapped: seq<bool>)
    ensures forall k :: 0 <= k < |NullSlot(free, mapped)| ==> !Has(mapped, NullSlot(free, mapped)[k])
    decreases |free|
  {
    if free != [] && Has(mapped, free[|free| - 1]) {
      NullIsNull(free[..|free| - 1], mapped);
      assert NullSlot(free, mapped) == NullSlot(free[..|free| - 1], mapped);
    }
  }

  lemma SomeNull(mapped: seq<bool>, ids: seq<nat>, depth: nat)
    requires ids != [] && Within(ids, depth) && forall k :: 0 <= k < |ids| ==> !Has(mapped, ids[k])
    ensures exists i :: 0 <= i < depth && !Has(mapped, i)
  {
    assert !Has(mapped, ids[0]);
  }

  /** What a pop without a node does to the stack: nothing to an empty one, else the null slot on top is gone. */
  predicate Gone(was: seq<nat>, now: seq<nat>, mapped: seq<bool>) {
    if was == [] then now == [] else now == was[..|was| - 1] && !Has(mapped, was[|was| - 1])
  }

  /** A pop without a node, while the nodes of chain are taken. */
  lemma GoneSlot(was: seq<nat>, before: seq<nat>, now: seq<nat>, chain: seq<nat>, mapped: seq<bool>)
    requires was == before + Reverse(chain) && AllHave(mapped, chain)
    requires Gone(before, now, mapped) && Avail(before, mapped) == 0
    ensures Avail(was, mapped) == |chain|
    ensures multiset(now + Reverse(chain)) + multiset(NullSlot(was, mapped)) == multiset(was)
    ensures forall id :: id in now + Reverse(chain) ==> id in was
  {
    AvailTaken(before, chain, mapped);
    if before == [] {
      assert now == before;
    } else {
      assert before == now + [before[|before| - 1]];
      assert was[|was| - 1 - |chain|] == before[|before| - 1];
    }
  }

  class Pool {
    const depth: nat
    const width: nat
    /** Slots whose node could be mapped; the others are null. */
    const mapped: seq<bool>
    /** The aligned nodes, by index; `free` is sgl_align[..top]. */
    var nodes: seq<Node>
    var free: seq<nat>
    /** What each node's size field holds before anything is counted in it: zero once the node was pushed. */
    ghost var stale: seq<nat>
    /** The chains handed out and not put back. */
    ghost var live: seq<seq<nat>>
    /** The null slots that were popped, and are not on the stack any more. */
    ghost var lost: seq<nat>

    ghost predicate Core()
      reads this`nodes, this`free, this`stale
      ensures Core() ==> |nodes| == depth == |stale| && width > 0 && Within(free, depth)
    {
      && 0 < width <= MAX_SGE_NUM && |nodes| == depth == |stale| == |mapped|
      && Distinct(free) && Within(free, depth)
      && (forall i :: 0 <= i < depth ==> |nodes[i].sges| == width)
      && (forall k :: 0 <= k < |free| ==> Blank(nodes[free[k]], width, stale[free[k]]))
    }

    /** Every slot is on the stack or lost, or its node is in exactly one live chain, once. */
    ghost predicate Valid()
      reads this
      ensures Valid() ==> Core()
    {
      && Core() && |free| + |lost| + |Concat(live)| == depth
      && Distinct(free + lost + Concat(live)) && Within(Concat(live), depth)
      && Within(lost, depth) && (forall k :: 0 <= k < |lost| ==> !Has(mapped, lost[k]))
      && (forall c :: 0 <= c < |live| ==> ChainOk(nodes, live[c], width, stale))
    }

    /**
    hisi_qm_create_sglpool.  leftover and size are what the memory of a node held before:
    hisi_qm_align_sgl clears neither the entries nor the size field; calloc does.  A node
    that iova_map cannot map leaves a null slot, which the code does not test for.
    */
    constructor (depth: nat, width: nat, leftover: Sge, size: nat -> nat, maps: nat -> bool)
      requires 0 < depth && 0 < width <= MAX_SGE_NUM && forall i :: 0 <= i < depth ==> size(i) < U64
      ensures Valid() && this.depth == depth && this.width == width && |free| == depth && live == [] && lost == []
      ensures |stale| == depth && forall i :: 0 <= i < depth ==> stale[i] == size(i)
      ensures |mapped| == depth && forall i :: 0 <= i < depth ==> mapped[i] == maps(i) && free[i] == i
    {
      this.depth, this.width, this.mapped := depth, width, seq(depth, i requires 0 <= i < depth => maps(i));
      lost := [];
      nodes := seq(depth, i requires 0 <= i < depth => Node(None, width, 0, size(i), seq(width, _ => leftover)));
      free := Upto(depth);
      stale, live := seq(depth, i requires 0 <= i < depth => size(i)), [];
    }

    /** Where every node was mapped, nothing is lost: free and chained nodes are all, and all free ones can be had. */
    lemma NothingLost()
      requires Valid() && forall i :: 0 <= i < depth ==> Has(mapped, i)
      ensures |free| + |Concat(live)| == depth && Avail(free, mapped) == |free|
    {
      if lost != [] {
        SomeNull(mapped, lost, depth);
      }
      AvailAllIff(free, mapped);
    }

    /** hisi_qm_sgl_pop. */
    method Pop() returns (r: Option<nat>)
      requires Core()
      modifies this`free
      ensures Core()
      ensures r.None? <==> Avail(old(free), mapped) == 0
      ensures r.None? ==> Gone(old(free), free, mapped)
      ensures r.Some? ==> r.value < depth && old(free) == free + [r.value] && Has(mapped, r.value)
                          && Blank(nodes[r.value], width, stale[r.value])
    {
      if |free| == 0 { return None; }
      var id := free[|free| - 1];
      free := free[..|free| - 1];
      return if Has(mapped, id) then Some(id) else None;
    }

    /** hisi_qm_sgl_push: the node is reset, its size too, before it goes back on the stack. */
    method Push(id: nat) returns (ok: bool)
      requires Core() && id < depth && id !in free
      modifies this`nodes, this`free, this`stale
      ensures Core() && ok
      ensures free == old(free) + [id] && stale == old(stale)[id := 0]
      ensures forall i :: 0 <= i < depth && i != id ==> nodes[i] == old(nodes)[i]
    {
      NotFull(free, id, depth);
      if |free| >= depth { return false; }
      nodes := nodes[id := nodes[id].(next := None, sumInSgl := 0, sumInChain := width, sizeInSgl := 0)];
      free := free + [id];
      stale := stale[id := 0];
      return true;
    }

    /** The loop of hisi_qm_put_hw_sgl: follow the links from the head, pushing every node. */
    method PutChain(head: nat, ghost chain: seq<nat>)
      requires Core() && chain != [] && chain[0] == head && Distinct(chain) && Within(chain, depth)
      requires Linked(nodes, chain)
      requires forall k :: 0 <= k < |chain| ==> chain[k] !in free
      modifies this`nodes, this`free, this`stale
      ensures Core() && free == old(free) + chain
      ensures forall i :: 0 <= i < depth && i !in chain ==> nodes[i] == old(nodes)[i] && stale[i] == old(stale)[i]
      ensures Clean(stale, chain)
    {
      hide Blank, Distinct;
      var cur := Some(head);
      ghost var k := 0;
      while cur.Some?
        invariant Core() && k <= |chain| && free == old(free) + chain[..k]
        invariant cur == if k < |chain| then Some(chain[k]) else None
        invariant forall i :: 0 <= i < depth && i !in chain[..k] ==>
          nodes[i] == old(nodes)[i] && stale[i] == old(stale)[i]
        invariant forall j :: 0 <= j < k ==> stale[chain[j]] == 0
        decreases |chain| - k
      {
        var id := cur.value;
        NotBefore(chain, k);
        var next := nodes[id].next;
        assert old(nodes)[chain[k]].next == if k + 1 < |chain| then Some(chain[k + 1]) else None;
        var ok := Push(id);
        if !ok { break; }
        assert chain[..k + 1] == chain[..k] + [chain[k]];
        k := k + 1;
        cur := next;
      }
    }

    /** hisi_qm_put_hw_sgl on the head of live chain `at`. */
    method PutHwSgl(head: nat, ghost at: nat)
      requires Valid() && at < |live| && live[at][0] == head
      modifies this
      ensures Valid() && live == old(live)[..at] + old(live)[at + 1..] && lost == old(lost)
      ensures free == old(free) + old(live)[at] && Clean(stale, old(live)[at])
      ensures forall i :: 0 <= i < depth && i !in old(live)[at] ==>
        nodes[i] == old(nodes)[i] && stale[i] == old(stale)[i]
    {
      hide Blank, NodesOk, Sized;
      ghost var chain, rest := live[at], live[..at] + live[at + 1..];
      LedgerPutBack(free, lost, live, at, depth);
      PutChain(head, chain);
      forall c | 0 <= c < |rest| ensures ChainOk(nodes, rest[c], width, stale) {
        ChainOkFrame(old(nodes), nodes, rest[c], width, old(stale), stale);
      }
      live := rest;
    }

    /** A chain under construction out of the nodes that were free in `was`. */
    ghost predicate Building(was: seq<nat>, chain: seq<nat>)
      reads this`nodes, this`free, this`stale
      ensures Building(was, chain) ==>
        && Core() && chain != [] && Within(chain, depth) && Sized(nodes, chain) && |chain| <= |was|
        && Distinct(was) && was == free + Reverse(chain) && ChainOk(nodes, chain, width, stale)
        && nodes[chain[0]].sumInChain == (width * |chain|) % U16 && AllHave(mapped, chain)
    {
      && Core() && Distinct(was) && was == free + Reverse(chain) && AllHave(mapped, chain)
      && ChainOk(nodes, chain, width, stale)
      && nodes[chain[0]].sumInChain == (width * |chain|) % U16
    }

    /** Fill the next entry of the last node. */
    method AddEntry(cur: nat, e: Sge, ghost was: seq<nat>, ghost chain: seq<nat>)
      requires Building(was, chain) && cur == chain[|chain| - 1] && nodes[cur].sumInSgl < width
      requires 0 < e.len <= MAX_SGE_SIZE
      modifies this`nodes
      ensures Building(was, chain) && nodes[cur].sumInSgl == old(nodes)[cur].sumInSgl + 1
      ensures ChainSges(nodes, chain) == ChainSges(old(nodes), chain) + [e]
      ensures Frame(old(nodes), nodes, chain) && (old(Full(nodes, chain, width)) ==> Full(nodes, chain, width))
    {
      hide ChainSges, Linked, NodesOk;
      TakenFacts(was, free, chain);
      AppendSge(nodes, chain, width, stale, e);
      assert cur in chain;
      nodes := nodes[cur := WithSge(nodes[cur], e)];
    }

    /** Take another node and link it behind the last one. */
    method Grow(first: nat, cur: nat, ghost was: seq<nat>, ghost chain: seq<nat>) returns (next: Option<nat>)
      requires Building(was, chain) && first == chain[0] && cur == chain[|chain| - 1]
      modifies this`nodes, this`free
      ensures next.None? ==> nodes == old(nodes) && Building(free + Reverse(chain), chain)
      ensures next.None? ==> Gone(old(free), free, mapped)
      ensures next.None? ==> Avail(old(free), mapped) == 0
      ensures next.Some? ==> next.value < depth && Building(was, chain + [next.value])
      ensures next.Some? ==> nodes[next.value].sumInSgl == 0
      ensures next.Some? ==> ChainSges(nodes, chain + [next.value]) == ChainSges(old(nodes), chain)
      ensures next.Some? ==> Frame(old(nodes), nodes, chain + [next.value])
      ensures next.Some? && old(Full(nodes, chain, width) && nodes[cur].sumInSgl == width) ==>
        Full(nodes, chain + [next.value], width)
    {
      hide ChainSges, ChainOk, Linked, NodesOk, Sized, Blank, Distinct, Avail, AllHave;
      TakenFacts(was, free, chain);
      next := Pop();
      if next.None? {
        StillDistinct(was, old(free), free, chain, mapped);
      } else {
        AllHaveMore(mapped, chain, next.value);
        var id := next.value;
        assert id in old(free);
        GrowChain(nodes, chain, width, stale, id);
        nodes := nodes[cur := nodes[cur].(next := Some(id))];
        nodes := nodes[first := nodes[first].(sumInChain := (nodes[first].sumInChain + width) % U16)];
        assert first in chain && cur in chain;
      }
    }

    /** The first node of a chain. */
    method Begin() returns (r: Option<nat>)
      requires Core()
      modifies this`free
      ensures r.None? ==> Core() && Gone(old(free), free, mapped) && Avail(old(free), mapped) == 0
      ensures r.Some? ==> Building(old(free), [r.value]) && r.value < depth
                          && ChainSges(nodes, [r.value]) == [] && nodes[r.value].sumInSgl == 0
    {
      r := Pop();
      if r.Some? {
        StartChain(nodes, r.value, width, stale);
        assert Reverse([r.value]) == [r.value];
      }
    }

    /**
    The loop of hisi_qm_get_hw_sgl over the list, from its first node on.  mapOk says
    whether the buffer of an entry can be mapped for the device.
    */
    method Fill(first: nat, list: seq<Sge>, mapOk: Sge -> bool, ghost was: seq<nat>)
      returns (r: BuildResult, ghost chain: seq<nat>, ghost kept: seq<nat>, ghost gone: seq<nat>)
      requires Building(was, [first]) && list != [] && first < depth
      requires nodes[first].sumInSgl == 0 && ChainSges(nodes, [first]) == []
      modifies this`nodes, this`free
      ensures Building(kept, chain) && chain[0] == first && Frame(old(nodes), nodes, chain) && Full(nodes, chain, width)
      ensures multiset(kept) + multiset(gone) == multiset(was) && forall id :: id in kept ==> id in was
      ensures gone == if r.Busy? then NullSlot(was, mapped) else []
      ensures r.Built? ==>
        && r.head == first && kept == was && |chain| == NodesNeeded(list, width)
        && ChainSges(nodes, chain) == Data(list)
        && Verdict(list, mapOk, width, Avail(was, mapped)) == if (width * |chain|) % U16 == 0 then Invalid else Built(0)
      ensures !r.Built? ==> Verdict(list, mapOk, width, Avail(was, mapped)) == r
    {
      hide Core, Building, ChainOk, Sized, Within, Distinct, Linked, ChainSges, Data, Skipped;
      hide Counted, Verdict, NodesNeeded, Acceptable, FirstBad, Reverse, Avail, AllHave, NullSlot, Gone;
      var cur := first;
      chain, kept, gone := [first], was, [];
      CountStart(list, mapOk, width);
      AvailTaken(free, chain, mapped);
      var i, t := 0, 0;
      while t < |list|
        invariant |chain| <= Avail(was, mapped) && Building(was, chain)
        invariant chain != [] && chain[0] == first && cur == chain[|chain| - 1] < depth
        invariant i == nodes[cur].sumInSgl && t <= |list| && Counted(list, mapOk, t, |chain|, i, width)
        invariant ChainSges(nodes, chain) == Data(list[..t])
        invariant Frame(old(nodes), nodes, chain) && Full(nodes, chain, width)
      {
        var e := list[t];
        DataStep(list, t);
        CountStep(list, mapOk, t, |chain|, i, width);
        if Skipped(e) {
          t := t + 1;
          continue;
        }
        if e.len > MAX_SGE_SIZE || !mapOk(e) {
          CountBad(list, mapOk, t, |chain|, i, width, Avail(was, mapped));
          return Invalid, chain, was, [];
        }
        AddEntry(cur, e, was, chain);
        i := i + 1;
        t := t + 1;
        if i == width && t < |list| {
          ghost var before := free;
          var next := Grow(first, cur, was, chain);
          if next.None? {
            GoneSlot(was, before, free, chain, mapped);
            CountBusy(list, mapOk, t, |chain|, width);
            return Busy, chain, free + Reverse(chain), NullSlot(was, mapped);
          }
          chain := chain + [next.value];
          AvailTaken(free, chain, mapped);
          cur := next.value;
          i := 0;
        }
      }
      CountEnd(list, mapOk, t, |chain|, i, width, Avail(was, mapped));
      return Built(first), chain, was, [];
    }

    /**
    The body of hisi_qm_get_hw_sgl.  The check at hisi_qm_udrv.c:1018 is meant for chains
    without data; it fires when the 16-bit count of the head has wrapped to zero.
    */
    method Build(list: seq<Sge>, mapOk: Sge -> bool)
      returns (r: BuildResult, ghost chain: seq<nat>, ghost gone: seq<nat>)
      requires Core() && list != []
      modifies this`nodes, this`free, this`stale
      ensures Core() && SameKind(r, Verdict(list, mapOk, width, Avail(old(free), mapped)))
      ensures Frame(old(nodes), nodes, old(free))
      ensures r.Built? ==> ChainOk(nodes, chain, width, stale) && Full(nodes, chain, width)
                           && chain != [] && chain[0] == r.head && stale == old(stale)
      ensures r.Built? ==> old(free) == free + Reverse(chain)
      ensures r.Built? ==> ChainSges(nodes, chain) == Data(list) && |chain| == NodesNeeded(list, width)
      ensures !r.Built? ==> multiset(free) + multiset(gone) == multiset(old(free))
      ensures gone == if r.Busy? then NullSlot(old(free), mapped) else []
      ensures !r.Built? ==> forall i :: 0 <= i < depth && i !in old(free) ==> stale[i] == old(stale)[i]
    {
      hide Core, Building, ChainOk, Sized, Within, Distinct, Linked, ChainSges, Data, Reverse, Concat;
      hide Counted, Verdict, NodesNeeded, Acceptable, FirstBad, Avail, AllHave, NullSlot, Gone, NodesOk;
      ghost var was, kept := free, free;
      chain, gone := [], [];
      var head := Begin();
      if head.None? {
        NoNodes(list, mapOk, width);
        NothingTaken(was, free, mapped);
        return Busy, [], NullSlot(was, mapped);
      }
      r, chain, kept, gone := Fill(head.value, list, mapOk, was);
      if r.Built? && nodes[head.value].sumInChain == 0 {
        r := Invalid;
      }
      if r.Built? {
        TakenFacts(was, free, chain);
        FrameWiden(old(nodes), nodes, chain, was);
      } else {
        GiveBack(head.value, kept, chain, old(nodes));
        FrameWiden(old(nodes), nodes, kept, was);
      }
    }

    /** The error path of the builder: every node it took goes back. */
    method GiveBack(first: nat, ghost was: seq<nat>, ghost chain: seq<nat>, ghost nodes0: seq<Node>)
      requires Building(was, chain) && chain[0] == first && Frame(nodes0, nodes, chain)
      modifies this`nodes, this`free, this`stale
      ensures Core() && multiset(free) == multiset(was) && Frame(nodes0, nodes, was)
      ensures forall i :: 0 <= i < depth && i !in was ==> stale[i] == old(stale)[i]
    {
      hide ChainSges, NodesOk, Sized, Blank;
      TakenFacts(was, free, chain);
      ReverseSame(chain);
      PutChain(first, chain);
    }

    /**
    hisi_qm_get_hw_sgl: a built chain is live from now on; a failed build returns every node
    it took, and only a null slot it met is not on the stack any more.
    */
    method GetHwSgl(list: seq<Sge>, mapOk: Sge -> bool) returns (r: BuildResult)
      requires Valid() && list != []
      modifies this
      ensures Valid() && SameKind(r, Verdict(list, mapOk, width, Avail(old(free), mapped)))
      ensures lost == old(lost) + if r.Busy? then NullSlot(old(free), mapped) else []
      ensures !r.Built? ==> live == old(live) && multiset(free + lost) == multiset(old(free + lost))
      ensures r.Built? ==>
        && |live| == |old(live)| + 1 && live[..|old(live)|] == old(live) && stale == old(stale)
        && var chain := live[|old(live)|];
        && chain != [] && chain[0] == r.head && old(free) == free + Reverse(chain)
        && |chain| == NodesNeeded(list, width)
        && ChainOk(nodes, chain, width, stale) && ChainSges(nodes, chain) == Data(list)
        && Full(nodes, chain, width)
    {
      hide *;
      ghost var chain, gone;
      ghost var was, before, stale0 := free, nodes, stale;
      LedgerParts();
      r, chain, gone := Build(list, mapOk);
      StillOk(before, stale0, was);
      if r.Built? {
        LedgerBuilt(was, free, lost, live, chain, depth);
        live := live + [chain];
        assert lost + [] == lost;
      } else {
        LedgerFailed(was, free, lost, gone, live, depth);
        NullIsNull(was, mapped);
        lost := lost + gone;
      }
      LedgerWhole();
    }

    /** Valid, taken apart. */
    lemma LedgerParts()
      requires Valid()
      ensures Core() && Ledger(free + lost, live, depth) && |nodes| == depth == |stale|
      ensures Within(free, depth) && Within(lost, depth)
      ensures forall k :: 0 <= k < |lost| ==> !Has(mapped, lost[k])
      ensures forall c :: 0 <= c < |live| ==> ChainOk(nodes, live[c], width, stale)
    {
    }

    lemma LedgerWhole()
      requires Core() && Ledger(free + lost, live, depth) && Within(lost, depth)
      requires forall k :: 0 <= k < |lost| ==> !Has(mapped, lost[k])
      requires forall c :: 0 <= c < |live| ==> ChainOk(nodes, live[c], width, stale)
      ensures Valid()
    {
    }

    /** Live chains do not notice what happens to nodes that were free. */
    lemma StillOk(before: seq<Node>, stale0: seq<nat>, was: seq<nat>)
      requires Core() && Ledger(was + lost, live, depth) && |stale0| == depth && Frame(before, nodes, was)
      requires forall i :: 0 <= i < depth && i !in was ==> stale[i] == stale0[i]
      requires forall c :: 0 <= c < |live| ==> ChainOk(before, live[c], width, stale0)
      ensures forall c :: 0 <= c < |live| ==> ChainOk(nodes, live[c], width, stale)
    {
      hide NodesOk, Sized, Blank, Linked;
      forall c | 0 <= c < |live| ensures ChainOk(nodes, live[c], width, stale) {
        LiveNotFree(was + lost, live, c, depth);
        assert forall id :: id in was ==> id in was + lost;
        ChainOkFrame(before, nodes, live[c], width, stale0, stale);
      }
    }
  }

  /**
  Two slots, the upper one null: a list of one element is answered busy with a node still
  on the stack, and the next call takes it.
  */
  method NullSlotBusy() returns (first: BuildResult, second: BuildResult)
    ensures first.Busy? && second.Built?
  {
    hide *;
    var list := [Sge(1, 1)];
    OneElement(list);
    var pool := new Pool(2, 1, Sge(0, 0), _ => 0, i => i == 0);
    UpperNull(pool.free, pool.mapped);
    first := pool.GetHwSgl(list, _ => true);
    LowerLeft(pool.free, pool.lost, pool.mapped);
    second := pool.GetHwSgl(list, _ => true);
  }

  lemma UpperNull(free: seq<nat>, mapped: seq<bool>)
    requires |free| == |mapped| == 2 && free[0] == 0 && free[1] == 1 && mapped[0] && !mapped[1]
    ensures Avail(free, mapped) == 0 && NullSlot(free, mapped) == [1] && free == [0, 1]
  {
  }

  lemma LowerLeft(free: seq<nat>, lost: seq<nat>, mapped: seq<bool>)
    requires multiset(free + lost) == multiset([0, 1] + []) && lost == [] + [1] && |mapped| == 2 && mapped[0]
    ensures Avail(free, mapped) == 1
  {
    assert multiset(free + lost) == multiset(free) + multiset{1};
    assert [0, 1] + [] == [0, 1] && multiset([0, 1]) == multiset{0, 1};
    assert multiset(free) == multiset{0, 1} - multiset{1};
    assert |free| == |multiset(free)| == 1;
    assert free[0] in multiset(free);
    assert free == [0] && free[..0] == [];
  }

  lemma OneElement(list: seq<Sge>)
    requires list == [Sge(1, 1)]
    ensures 1 <= MAX_SGE_NUM && 0 < U64 && Verdict(list, _ => true, 1, 0).Busy? && Verdict(list, _ => true, 1, 1).Built?
    ensures forall r: BuildResult, v: BuildResult :: SameKind(r, v) ==> r.Built? == v.Built? && r.Busy? == v.Busy?
  {
    var mapOk: Sge -> bool := _ => true;
    FirstBadIs(list, mapOk, 1);
    assert list[..0] == [] && list[..1] == list;
    assert NodesNeeded(list, 1) == 1;
  }

  // ---------- the ledger of live chains ----------

  function Concat(chains: seq<seq<nat>>): (ids: seq<nat>) {
    if chains == [] then [] else Concat(chains[..|chains| - 1]) + chains[|chains| - 1]
  }

  ghost predicate Ledger(free: seq<nat>, live: seq<seq<nat>>, depth: nat) {
    |free| + |Concat(live)| == depth && Distinct(free + Concat(live)) && Within(Concat(live), depth)
  }

  lemma {:induction false} ConcatSplit(live: seq<seq<nat>>, at: nat)
    requires at < |live|
    ensures multiset(Concat(live)) == multiset(Concat(live[..at] + live[at + 1..])) + multiset(live[at])
    ensures |Concat(live)| == |Concat(live[..at] + live[at + 1..])| + |live[at]|
    decreases |live|
  {
    hide Concat;
    var m := |live| - 1;
    var rest := live[..at] + live[at + 1..];
    ConcatLast(live);
    if at == m {
      assert rest == live[..m];
    } else {
      ConcatSplit(live[..m], at);
      ConcatLast(rest);
      assert rest[..|rest| - 1] == live[..m][..at] + live[..m][at + 1..] && rest[|rest| - 1] == live[m];
    }
  }

  lemma ConcatLast(chains: seq<seq<nat>>)
    requires chains != []
    ensures var m := |chains| - 1;
      && |Concat(chains)| == |Concat(chains[..m])| + |chains[m]|
      && multiset(Concat(chains)) == multiset(Concat(chains[..m])) + multiset(chains[m])
  {
  }

  /** Different elements, whatever their order. */
  lemma DistinctCount(ids: seq<nat>)
    ensures Distinct(ids) <==> forall x :: multiset(ids)[x] <= 1
  {
    if Distinct(ids) {
      forall x ensures multiset(ids)[x] <= 1 { CountOnce(ids, x); }
    } else {
      var i, j :| 0 <= i < j < |ids| && ids[i] == ids[j];
      var front, back := ids[..j], ids[j..];
      assert ids == front + back && front[i] in multiset(front) && back[0] in multiset(back);
      assert multiset(ids)[ids[i]] == multiset(front)[ids[i]] + multiset(back)[ids[i]];
    }
  }

  lemma {:induction false} CountOnce(ids: seq<nat>, x: nat)
    requires Distinct(ids)
    ensures multiset(ids)[x] <= 1
  {
    if ids != [] {
      var m := |ids| - 1;
      CountOnce(ids[..m], x);
      assert ids == ids[..m] + [ids[m]];
      assert ids[m] !in ids[..m];
    }
  }

  lemma DistinctPermuted(a: seq<nat>, b: seq<nat>)
    requires Distinct(a) && multiset(a) == multiset(b)
    ensures Distinct(b)
  {
    hide Distinct;
    DistinctCount(a);
    DistinctCount(b);
  }

  lemma LedgerGet(was: seq<nat>, free: seq<nat>, live: seq<seq<nat>>, chain: seq<nat>, depth: nat)
    requires Ledger(was, live, depth) && was == free + Reverse(chain) && Within(was, depth)
    ensures Ledger(free, live + [chain], depth)
  {
    hide Distinct;
    var live' := live + [chain];
    assert live'[..|live|] == live;
    ReverseSame(chain);
    DistinctPermuted(was + Concat(live), free + Concat(live'));
    forall i | 0 <= i < |Concat(live')| ensures Concat(live')[i] < depth {
      if i >= |Concat(live)| {
        assert chain[i - |Concat(live)|] == was[|was| - 1 - (i - |Concat(live)|)];
      }
    }
  }

  lemma LedgerSame(was: seq<nat>, free: seq<nat>, live: seq<seq<nat>>)
    requires multiset(was) == multiset(free)
    ensures forall depth: nat :: Ledger(was, live, depth) ==> Ledger(free, live, depth)
  {
    hide Distinct;
    forall depth: nat | Ledger(was, live, depth) ensures Ledger(free, live, depth) {
      assert |multiset(was)| == |multiset(free)|;
      DistinctPermuted(was + Concat(live), free + Concat(live));
    }
  }

  /** A build out of the stack `was`. */
  lemma LedgerBuilt(was: seq<nat>, free: seq<nat>, lost: seq<nat>, live: seq<seq<nat>>, chain: seq<nat>, depth: nat)
    requires Ledger(was + lost, live, depth) && Within(was, depth) && Within(lost, depth)
    requires was == free + Reverse(chain)
    ensures Ledger(free + lost, live + [chain], depth)
  {
    hide Ledger, Reverse;
    LedgerSame(was + lost, free + lost + Reverse(chain), live);
    assert Within(free + lost + Reverse(chain), depth) by {
      assert forall i :: 0 <= i < |Reverse(chain)| ==> was[|free| + i] == Reverse(chain)[i];
      assert forall i :: 0 <= i < |free| ==> was[i] == free[i];
    }
    LedgerGet(free + lost + Reverse(chain), free + lost, live, chain, depth);
  }

  /** A failed build, which may have met a null slot. */
  lemma LedgerFailed(was: seq<nat>, free: seq<nat>, lost: seq<nat>, gone: seq<nat>, live: seq<seq<nat>>, depth: nat)
    requires Ledger(was + lost, live, depth) && Within(was, depth) && Within(lost, depth)
    requires multiset(free) + multiset(gone) == multiset(was)
    ensures Ledger(free + (lost + gone), live, depth) && Within(lost + gone, depth)
    ensures multiset(free + (lost + gone)) == multiset(was + lost)
  {
    hide Ledger;
    forall i | 0 <= i < |gone| ensures gone[i] < depth {
      assert gone[i] in multiset(gone);
      assert gone[i] in multiset(was);
    }
    LedgerSame(was + lost, free + (lost + gone), live);
  }

  lemma {:induction false} ConcatHas(live: seq<seq<nat>>, c: nat, k: nat)
    requires c < |live| && k < |live[c]|
    ensures live[c][k] in Concat(live)
    decreases |live|
  {
    if c < |live| - 1 { ConcatHas(live[..|live| - 1], c, k); }
  }

  lemma LiveNotFree(free: seq<nat>, live: seq<seq<nat>>, c: nat, depth: nat)
    requires Ledger(free, live, depth) && c < |live|
    ensures forall k :: 0 <= k < |live[c]| ==> live[c][k] !in free && live[c][k] < depth
  {
    forall k | 0 <= k < |live[c]| ensures live[c][k] !in free && live[c][k] < depth {
      ConcatHas(live, c, k);
      var ids := free + Concat(live);
      var j :| 0 <= j < |Concat(live)| && Concat(live)[j] == live[c][k];
      assert ids[|free| + j] == live[c][k];
      forall m | 0 <= m < |free| ensures free[m] != live[c][k] {
        assert ids[m] == free[m];
      }
    }
  }

  /** Putting chain `at` back keeps the ledger, and no other live chain shares a node with it. */
  lemma LedgerPut(free: seq<nat>, live: seq<seq<nat>>, at: nat, depth: nat)
    requires Ledger(free, live, depth) && at < |live|
    ensures var rest := live[..at] + live[at + 1..];
      && Ledger(free + live[at], rest, depth) && Distinct(live[at])
      && (forall k :: 0 <= k < |live[at]| ==> live[at][k] !in free && live[at][k] < depth)
      && (forall c, k :: 0 <= c < |rest| && 0 <= k < |rest[c]| ==> rest[c][k] !in live[at] && rest[c][k] < depth)
  {
    hide Concat;
    var chain, rest := live[at], live[..at] + live[at + 1..];
    var ids := free + chain + Concat(rest);
    ConcatSplit(live, at);
    DistinctPermuted(free + Concat(live), ids);
    LiveNotFree(free, live, at, depth);
    assert forall i :: 0 <= i < |chain| ==> chain[i] == ids[|free| + i];
    forall c, k | 0 <= c < |rest| && 0 <= k < |rest[c]| ensures rest[c][k] !in chain && rest[c][k] in Concat(rest) {
      ConcatHas(rest, c, k);
      var j :| 0 <= j < |Concat(rest)| && Concat(rest)[j] == rest[c][k];
      assert ids[|free| + |chain| + j] == rest[c][k];
    }
    forall j | 0 <= j < |Concat(rest)| ensures Concat(rest)[j] < depth {
      assert Concat(rest)[j] in multiset(Concat(rest));
      assert Concat(rest)[j] in multiset(Concat(live));
    }
  }

  /** The same with null slots lost. */
  lemma LedgerPutBack(free: seq<nat>, lost: seq<nat>, live: seq<seq<nat>>, at: nat, depth: nat)
    requires Ledger(free + lost, live, depth) && at < |live|
    ensures var rest := live[..at] + live[at + 1..];
      && Ledger(free + live[at] + lost, rest, depth) && Distinct(live[at])
      && (forall k :: 0 <= k < |live[at]| ==> live[at][k] !in free && live[at][k] < depth)
      && (forall c, k :: 0 <= c < |rest| && 0 <= k < |rest[c]| ==> rest[c][k] !in live[at] && rest[c][k] < depth)
  {
    hide Ledger, Distinct, Concat;
    var rest := live[..at] + live[at + 1..];
    LedgerPut(free + lost, live, at, depth);
    LedgerSame(free + lost + live[at], free + live[at] + lost, rest);
    forall k | 0 <= k < |live[at]| ensures live[at][k] !in free {
      assert live[at][k] !in free + lost;
    }
  }

  // ---------- how many nodes a list needs ----------

  /** One node, and another whenever one is full with list elements, empty or not, still to come. */
  function NodesNeeded(list: seq<Sge>, width: nat): (n: nat)
    requires list != [] && width > 0
  {
    1 + |Data(list[..|list| - 1])| / width
  }

  /** All but the last of them are full with what comes before the last element, and it finds a free entry. */
  lemma NodesNeededIs(list: seq<Sge>, width: nat)
    requires list != [] && width > 0
    ensures var d, n := |Data(list[..|list| - 1])|, NodesNeeded(list, width);
      n > 0 && (n - 1) * width <= d < n * width
  {
    var d := |Data(list[..|list| - 1])|;
    assert d / width * width + d % width == d;
    ModArith.Distribute(d / width, 1, width);
  }

  /** Position of the first element the builder cannot take, or the length of the list. */
  ghost function FirstBad(list: seq<Sge>, mapOk: Sge -> bool): (u: nat)
    ensures u <= |list| && (forall k :: 0 <= k < u ==> Acceptable(list[k], mapOk))
    ensures u < |list| ==> !Acceptable(list[u], mapOk)
  {
    if list == [] || !Acceptable(list[0], mapOk) then 0 else 1 + FirstBad(list[1..], mapOk)
  }

  /** What the builder answers, as a function of the list and the number of free nodes. */
  ghost function Verdict(list: seq<Sge>, mapOk: Sge -> bool, width: nat, free: nat): (r: BuildResult)
    requires list != [] && width > 0
  {
    var u := FirstBad(list, mapOk);
    var n := NodesNeeded(if u < |list| then list[..u + 1] else list, width);
    if n > free then Busy
    else if u < |list| || (width * n) % U16 == 0 then Invalid
    else Built(0)
  }

  predicate SameKind(a: BuildResult, b: BuildResult) {
    a.Built? == b.Built? && a.Busy? == b.Busy?
  }

  /** t elements taken, in c nodes, the last of them with i entries. */
  ghost predicate Counted(list: seq<Sge>, mapOk: Sge -> bool, t: nat, c: nat, i: nat, width: nat) {
    && width > 0 && c > 0 && t <= |list| && i <= width && |Data(list[..t])| == width * (c - 1) + i
    && (t < |list| ==> i < width)
    && (list != [] && t == |list| ==> c == NodesNeeded(list, width))
    && (forall k :: 0 <= k < t ==> Acceptable(list[k], mapOk))
  }

  lemma {:induction false} FirstBadIs(list: seq<Sge>, mapOk: Sge -> bool, u: nat)
    requires u <= |list| && (forall k :: 0 <= k < u ==> Acceptable(list[k], mapOk))
    requires u < |list| ==> !Acceptable(list[u], mapOk)
    ensures FirstBad(list, mapOk) == u
    decreases u
  {
    hide Acceptable;
    if u > 0 {
      FirstBadIs(list[1..], mapOk, u - 1);
    }
  }

  lemma NoNodes(list: seq<Sge>, mapOk: Sge -> bool, width: nat)
    requires list != [] && width > 0
    ensures Verdict(list, mapOk, width, 0) == Busy
  {
  }

  lemma CountStart(list: seq<Sge>, mapOk: Sge -> bool, width: nat)
    requires list != [] && width > 0
    ensures Counted(list, mapOk, 0, 1, 0, width) && Data(list[..0]) == []
  {
    assert width * 0 == 0;
  }

  /** Before the element at t is taken, c nodes are what the list up to it needs. */
  lemma NeededSoFar(list: seq<Sge>, t: nat, c: nat, i: nat, width: nat)
    requires t < |list| && c > 0 && i < width && |Data(list[..t])| == width * (c - 1) + i
    ensures NodesNeeded(list[..t + 1], width) == c
  {
    assert list[..t + 1][..t] == list[..t];
    ModArith.DivModUnique(|Data(list[..t])|, width, c - 1, i);
  }

  /** Taking the element at t: an empty one counts nothing; another fills an entry, and may start a node. */
  lemma CountStep(list: seq<Sge>, mapOk: Sge -> bool, t: nat, c: nat, i: nat, width: nat)
    requires Counted(list, mapOk, t, c, i, width) && t < |list|
    ensures i < width
    ensures Skipped(list[t]) ==> Counted(list, mapOk, t + 1, c, i, width)
    ensures var e := list[t];
      !Skipped(e) && e.len <= MAX_SGE_SIZE && mapOk(e) ==>
        && 0 < e.len
        && (i + 1 < width || t + 1 == |list| ==> Counted(list, mapOk, t + 1, c, i + 1, width))
        && (i + 1 == width && t + 1 < |list| ==> Counted(list, mapOk, t + 1, c + 1, 0, width)
                                                 && Counted(list[..t + 1], mapOk, t + 1, c, width, width))
  {
    var e := list[t];
    AcceptableMeans(e, mapOk);
    DataStep(list, t);
    NeededSoFar(list, t, c, i, width);
    assert t + 1 == |list| ==> list[..t + 1] == list;
    assert width * c == width * (c - 1) + width;
    assert list[..t + 1][..t + 1] == list[..t + 1];
    hide Data, Acceptable, NodesNeeded, Skipped;
    assert forall k :: 0 <= k < t + 1 ==> list[..t + 1][k] == list[k];
  }

  lemma CountBad(list: seq<Sge>, mapOk: Sge -> bool, t: nat, c: nat, i: nat, width: nat, free: nat)
    requires Counted(list, mapOk, t, c, i, width) && t < |list| && c <= free
    requires !Skipped(list[t]) && (list[t].len > MAX_SGE_SIZE || !mapOk(list[t]))
    ensures Verdict(list, mapOk, width, free) == Invalid
  {
    AcceptableMeans(list[t], mapOk);
    FirstBadIs(list, mapOk, t);
    NeededSoFar(list, t, c, i, width);
    hide Data, Acceptable, NodesNeeded, FirstBad;
  }

  lemma CountBusy(list: seq<Sge>, mapOk: Sge -> bool, t: nat, c: nat, width: nat)
    requires t < |list| && Counted(list[..t], mapOk, t, c, width, width)
    ensures Verdict(list, mapOk, width, c) == Busy
  {
    var u := FirstBad(list, mapOk);
    assert list[..t][..t] == list[..t];
    assert forall k :: 0 <= k < t ==> list[..t][k] == list[k];
    hide Data, FirstBad, Acceptable;
    assert u >= t;
    BusyPart(list, t, if u < |list| then u else |list| - 1, c, width);
    assert u == |list| ==> list[..|list| - 1 + 1] == list;
  }

  lemma BusyPart(list: seq<Sge>, t: nat, u: nat, c: nat, width: nat)
    requires t <= u < |list| && width > 0 && c > 0 && |Data(list[..t])| == width * (c - 1) + width
    ensures NodesNeeded(list[..u + 1], width) > c
  {
    var front := list[..u + 1][..u];
    assert front == list[..u] && front[..t] == list[..t];
    DataPrefix(front, t);
    hide Data;
    assert width * c == width * (c - 1) + width;
    AtLeast(|Data(front)|, c, width);
  }

  lemma AtLeast(x: nat, c: nat, width: nat)
    requires width > 0 && x >= width * c
    ensures x / width >= c
  {
    if x / width < c {
      ModArith.MulLe(x / width + 1, c, width);
    }
  }

  lemma CountEnd(list: seq<Sge>, mapOk: Sge -> bool, t: nat, c: nat, i: nat, width: nat, free: nat)
    requires Counted(list, mapOk, t, c, i, width) && t >= |list| && list != [] && c <= free
    ensures t == |list| && list[..t] == list && c == NodesNeeded(list, width)
    ensures Verdict(list, mapOk, width, free) == if (width * c) % U16 == 0 then Invalid else Built(0)
  {
    FirstBadIs(list, mapOk, t);
    hide Data, Acceptable, NodesNeeded, FirstBad;
  }

  /** n list elements of one byte. */
  function Ones(n: nat): (list: seq<Sge>)
    ensures |list| == n && forall k :: 0 <= k < n ==> list[k] == Sge(1, 1)
  {
    seq(n, _ => Sge(1, 1))
  }

  lemma {:induction false} OnesData(n: nat)
    ensures Data(Ones(n)) == Ones(n)
  {
    if n > 0 {
      OnesData(n - 1);
      assert Ones(n)[..n - 1] == Ones(n - 1);
    }
  }

  /** 65536 good elements in 512 nodes of 128 entries: the count in the head is zero, and the list is refused. */
  lemma WrappedCountRefuses()
    ensures Verdict(Ones(0x1_0000), _ => true, 128, 512) == Invalid
    ensures forall k :: 0 <= k < 0x1_0000 ==> Acceptable(Ones(0x1_0000)[k], _ => true)
  {
    var list, mapOk: Sge -> bool := Ones(0x1_0000), _ => true;
    assert list[..0xFFFF] == Ones(0xFFFF);
    OnesData(0xFFFF);
    assert NodesNeeded(list, 128) == 512;
    hide Ones, Data, NodesNeeded;
    FirstBadIs(list, mapOk, |list|);
  }

  /** A pool whose entries number less than 2^16 never runs into the wrapped count. */
  lemma SmallPoolNeverWraps(list: seq<Sge>, mapOk: Sge -> bool, width: nat, depth: nat)
    requires list != [] && width > 0 && width * depth < U16
    requires Verdict(list, mapOk, width, depth) == Invalid
    ensures exists k :: 0 <= k < |list| && !Acceptable(list[k], mapOk)
  {
    var u := FirstBad(list, mapOk);
    if u == |list| {
      ModArith.MulLe(1, NodesNeeded(list, width), width);
      ModArith.MulLe(NodesNeeded(list, width), depth, width);
    }
  }

  /** Nodes outside `ids` are untouched. */
  ghost predicate Frame(was: seq<Node>, now: seq<Node>, ids: seq<nat>) {
    |was| == |now| && forall i: nat :: i < |was| && i !in ids ==> now[i] == was[i]
  }

  lemma FrameWiden(was: seq<Node>, now: seq<Node>, ids: seq<nat>, more: seq<nat>)
    requires Frame(was, now, ids) && forall id :: id in ids ==> id in more
    ensures Frame(was, now, more)
  {
  }

  /** An element the builder can take: empty ones are skipped. */
  predicate Acceptable(e: Sge, mapOk: Sge -> bool) {
    Skipped(e) || (e.len <= MAX_SGE_SIZE && mapOk(e))
  }

  lemma AcceptableMeans(e: Sge, mapOk: Sge -> bool)
    ensures Acceptable(e, mapOk) <==> Skipped(e) || (e.len <= MAX_SGE_SIZE && mapOk(e))
  {
  }

  lemma NotBefore(ids: seq<nat>, k: nat)
    requires Distinct(ids) && k < |ids|
    ensures ids[k] !in ids[..k]
  {
  }

  function Reverse(ids: seq<nat>): (r: seq<nat>)
    ensures |r| == |ids| && forall k :: 0 <= k < |ids| ==> r[k] == ids[|ids| - 1 - k]
  {
    seq(|ids|, k requires 0 <= k < |ids| => ids[|ids| - 1 - k])
  }

  lemma {:induction false} ReverseSame(ids: seq<nat>)
    ensures multiset(Reverse(ids)) == multiset(ids)
  {
    if ids != [] {
      var n := |ids| - 1;
      assert Reverse(ids) == [ids[n]] + Reverse(ids[..n]);
      assert ids == ids[..n] + [ids[n]];
      ReverseSame(ids[..n]);
    }
  }

  /** The nodes of a chain are different from each other and not on the stack any more. */
  lemma TakenFacts(was: seq<nat>, now: seq<nat>, chain: seq<nat>)
    requires Distinct(was) && was == now + Reverse(chain)
    ensures Distinct(chain)
    ensures forall k :: 0 <= k < |chain| ==> chain[k] !in now
    ensures forall id :: id in chain ==> id in was
  {
    forall k | 0 <= k < |chain| ensures chain[k] in was {
      assert was[|now| + |chain| - 1 - k] == chain[k];
    }
    forall i, j | 0 <= i < j < |chain| ensures chain[i] != chain[j] {
      assert was[|now| + |chain| - 1 - j] != was[|now| + |chain| - 1 - i];
    }
    forall k, m | 0 <= k < |chain| && 0 <= m < |now| ensures chain[k] != now[m] {
      assert was[m] != was[|now| + |chain| - 1 - k];
    }
  }

  /** The stack without its top is still one of different slots. */
  lemma StillDistinct(was: seq<nat>, before: seq<nat>, now: seq<nat>, chain: seq<nat>, mapped: seq<bool>)
    requires Distinct(was) && was == before + Reverse(chain) && Gone(before, now, mapped)
    ensures Distinct(now + Reverse(chain))
  {
    var rest := now + Reverse(chain);
    forall i, j | 0 <= i < j < |rest| ensures rest[i] != rest[j] {
      var d := |before| - |now|;
      assert rest[i] == was[if i < |now| then i else i + d] && rest[j] == was[if j < |now| then j else j + d];
    }
  }

  lemma AllHaveMore(mapped: seq<bool>, chain: seq<nat>, id: nat)
    requires AllHave(mapped, chain) && Has(mapped, id)
    ensures AllHave(mapped, chain + [id])
  {
  }

  lemma NothingTaken(was: seq<nat>, now: seq<nat>, mapped: seq<bool>)
    requires Gone(was, now, mapped) && Avail(was, mapped) == 0
    ensures multiset(now) + multiset(NullSlot(was, mapped)) == multiset(was)
    ensures forall id :: id in now ==> id in was
  {
    if was != [] {
      assert was == now + [was[|was| - 1]];
    }
  }

  /** Linking a blank node and counting it in the head. */
  lemma GrowChain(nodes: seq<Node>, chain: seq<nat>, width: nat, stale: seq<nat>, id: nat)
    requires ChainOk(nodes, chain, width, stale) && Distinct(chain)
    requires nodes[chain[0]].sumInChain == (width * |chain|) % U16
    requires id < |nodes| && id !in chain && Blank(nodes[id], width, stale[id])
    ensures var mid := nodes[chain[|chain| - 1] := nodes[chain[|chain| - 1]].(next := Some(id))];
      var nodes' := mid[chain[0] := mid[chain[0]].(sumInChain := (mid[chain[0]].sumInChain + width) % U16)];
      && ChainOk(nodes', chain + [id], width, stale) && Distinct(chain + [id])
      && ChainSges(nodes', chain + [id]) == ChainSges(nodes, chain)
      && nodes'[chain[0]].sumInChain == (width * (|chain| + 1)) % U16 && nodes'[id] == nodes[id]
  {
    hide ChainSges, Linked, NodesOk, Sized;
    ExtendChain(nodes, chain, width, stale, id);
    var mid := nodes[chain[|chain| - 1] := nodes[chain[|chain| - 1]].(next := Some(id))];
    Recount(mid, chain + [id], width, stale, chain[0], (mid[chain[0]].sumInChain + width) % U16);
    CountMod(width, |chain|);
    assert id != chain[0];
  }

  lemma CountMod(width: nat, n: nat)
    ensures ((width * n) % U16 + width) % U16 == (width * (n + 1)) % U16
  {
    var p := width * n;
    assert width * (n + 1) == p + width;
  }

  lemma DataPrefix(list: seq<Sge>, t: nat)
    requires t <= |list|
    ensures |Data(list[..t])| <= |Data(list)|
  {
    DataConcat(list[..t], list[t..]);
    assert list == list[..t] + list[t..];
  }

  lemma {:induction false} DataConcat(a: seq<Sge>, b: seq<Sge>)
    ensures Data(a + b) == Data(a) + Data(b)
    decreases |b|
  {
    if b == [] {
      assert a + b == a;
    } else {
      var m := |b| - 1;
      assert a + b == a + b[..m] + [b[m]];
      DataConcat(a, b[..m]);
      assert (a + b)[..|a + b| - 1] == a + b[..m];
    }
  }

  lemma StartChain(nodes: seq<Node>, id: nat, width: nat, stale: seq<nat>)
    requires id < |nodes| == |stale| && Blank(nodes[id], width, stale[id])
    ensures ChainOk(nodes, [id], width, stale) && ChainSges(nodes, [id]) == []
  {
  }

  lemma DataStep(list: seq<Sge>, t: nat)
    requires t < |list|
    ensures Data(list[..t + 1]) == Data(list[..t]) + if Skipped(list[t]) then [] else [list[t]]
  {
    assert list[..t + 1][..t] == list[..t];
  }

  /** The chain total in the head does not touch links or entries. */
  lemma Recount(nodes: seq<Node>, chain: seq<nat>, width: nat, stale: seq<nat>, id: nat, c: nat)
    requires ChainOk(nodes, chain, width, stale) && id < |nodes|
    ensures var nodes' := nodes[id := nodes[id].(sumInChain := c)];
      ChainOk(nodes', chain, width, stale) && ChainSges(nodes', chain) == ChainSges(nodes, chain)
  {
    var nodes' := nodes[id := nodes[id].(sumInChain := c)];
    forall k | 0 <= k < |chain|
      ensures NodeOk(nodes'[chain[k]], width, stale[chain[k]]) && nodes'[chain[k]].next == nodes[chain[k]].next
    {
      assert NodeOk(nodes[chain[k]], width, stale[chain[k]]);
    }
    ChainSgesFrame(nodes, nodes', chain);
  }

  /** A free node leaves room on the stack. */
  lemma NotFull(free: seq<nat>, id: nat, depth: nat)
    requires Distinct(free) && Within(free, depth) && id < depth && id !in free
    ensures |free| < depth
  {
    var all := free + [id];
    assert Distinct(all) && Within(all, depth);
    AtMost(all, depth);
  }

  /** A list of different numbers below n has at most n elements. */
  lemma {:induction false} AtMost(ids: seq<nat>, n: nat)
    requires Distinct(ids) && Within(ids, n)
    ensures |ids| <= n
    decreases n
  {
    assert ids != [] ==> ids[0] < n;
    if n > 0 {
      if n - 1 in ids {
        var k :| 0 <= k < |ids| && ids[k] == n - 1;
        AtMost(ids[..k] + ids[k + 1..], n - 1);
      } else {
        assert Within(ids, n - 1) by {
          forall i | 0 <= i < |ids| ensures ids[i] < n - 1 { assert ids[i] in ids; }
        }
        AtMost(ids, n - 1);
      }
    }
  }
}
