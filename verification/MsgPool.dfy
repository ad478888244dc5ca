/**
The message pool of wd_util.c: slots claimed by test-and-set from a shared, racily
written start position, named by tags that start at 1.
*/
module MsgPool {
  import opened ModArith

  // ---------- any number of threads ----------

  /**
  Where a thread stands inside wd_get_msg_from_pool: about to probe idx after cnt failed
  probes, or holding idx and about to write the start position back. As history, start is
  where it began and met are the slots it found used.
  */
  datatype Thread = Outside | Probing(idx: nat, cnt: nat, start: nat, met: set<nat>) | Won(idx: nat)

  /** owned are the slots whose tag a caller has and has not put back. */
  datatype State = State(used: seq<bool>, tail: nat, threads: seq<Thread>, owned: multiset<nat>)

  datatype Step =
    | Enter(t: nat)
    | Probe(t: nat)
    | Leave(t: nat)
    | Put(tag: nat)

  ghost predicate Enabled(s: State, e: Step) {
    match e
    case Enter(t) => t < |s.threads| && s.threads[t].Outside? && |s.used| > 0
    case Probe(t) => t < |s.threads| && s.threads[t].Probing? && s.threads[t].idx < |s.used|
    case Leave(t) => t < |s.threads| && s.threads[t].Won? && |s.used| > 0
    case Put(tag) => tag > 0 && s.owned[tag - 1] > 0 && tag <= |s.used|
  }

  ghost function Next(s: State, e: Step): (s': State)
    requires Enabled(s, e)
  {
    match e
    case Enter(t) => s.(threads := s.threads[t := Probing(s.tail, 0, s.tail, {})])
    case Probe(t) =>
      var Probing(i, cnt, start, met) := s.threads[t];
      if !s.used[i] then s.(used := s.used[i := true], threads := s.threads[t := Won(i)])
      else if cnt + 1 == |s.used| then s.(threads := s.threads[t := Outside])
      else s.(threads := s.threads[t := Probing(Slot(i + 1, |s.used|), cnt + 1, start, met + {i})])
    case Leave(t) =>
      var i := s.threads[t].idx;
      s.(tail := Slot(i + 1, |s.used|), threads := s.threads[t := Outside], owned := s.owned + multiset{i})
    case Put(tag) => s.(used := s.used[tag - 1 := false], owned := s.owned - multiset{tag - 1})
  }

  ghost function IsWinner(th: Thread, i: nat): nat {
    if th == Won(i) then 1 else 0
  }

  /** Threads that claimed slot i and have not left yet. */
  ghost function Winners(threads: seq<Thread>, i: nat): nat {
    if threads == [] then 0 else IsWinner(threads[0], i) + Winners(threads[1..], i)
  }

  ghost function Holders(s: State, i: nat): nat {
    Winners(s.threads, i) + s.owned[i]
  }

  /** How far slot i lies behind start, going round. */
  ghost function Ahead(start: nat, i: nat, n: nat): (k: int) {
    if i >= start then i - start else i + n - start
  }

  ghost predicate InRange(th: Thread, n: nat) {
    match th
    case Outside => true
    case Won(i) => i < n
    case Probing(i, cnt, start, met) =>
      && i < n && start < n && cnt < n && Ahead(start, i, n) == cnt
      && forall j: nat :: j in met <==> j < n && Ahead(start, j, n) < cnt
  }

  /** Each slot has one holder when its flag is set and none when it is clear. */
  ghost predicate Inv(s: State) {
    && (|s.used| > 0 ==> s.tail < |s.used|)
    && (forall t :: 0 <= t < |s.threads| ==> InRange(s.threads[t], |s.used|))
    && (forall i: nat :: Holders(s, i) == if i < |s.used| && s.used[i] then 1 else 0)
  }

  lemma {:induction false} WinnersUpdate(threads: seq<Thread>, t: nat, th: Thread, i: nat)
    requires t < |threads|
    ensures Winners(threads[t := th], i) + IsWinner(threads[t], i) == Winners(threads, i) + IsWinner(th, i)
    decreases |threads|
  {
    if t == 0 {
      assert threads[t := th][1..] == threads[1..];
    } else {
      WinnersUpdate(threads[1..], t - 1, th, i);
      assert threads[t := th][1..] == threads[1..][t - 1 := th];
    }
  }

  lemma HoldersNext(s: State, e: Step, i: nat)
    requires Inv(s) && Enabled(s, e)
    ensures Holders(Next(s, e), i) == if i < |s.used| && Next(s, e).used[i] then 1 else 0
  {
    hide Winners, Slot;
    assert Holders(s, i) == if i < |s.used| && s.used[i] then 1 else 0;
    if !e.Put? {
      WinnersUpdate(s.threads, e.t, Next(s, e).threads[e.t], i);
    }
  }

  /** One place on from a slot cnt places behind start. */
  lemma AheadNext(start: nat, i: nat, n: nat)
    requires start < n && i < n && Ahead(start, i, n) + 1 < n
    ensures Slot(i + 1, n) < n && Ahead(start, Slot(i + 1, n), n) == Ahead(start, i, n) + 1
    ensures forall j: nat :: j < n && Ahead(start, j, n) == Ahead(start, i, n) ==> j == i
  {
    if i + 1 < n { SlotSmall(i + 1, n); } else { SlotWrap(n); }
  }

  lemma SlotWrap(n: nat)
    requires n > 0
    ensures Slot(n, n) == 0
  {
  }

  lemma RangeNext(s: State, e: Step, t: nat)
    requires Inv(s) && Enabled(s, e) && t < |s.threads|
    ensures InRange(Next(s, e).threads[t], |s.used|)
  {
    hide Holders, Slot;
    assert InRange(s.threads[t], |s.used|);
    if e.Probe? && t == e.t && s.used[s.threads[t].idx] && s.threads[t].cnt + 1 < |s.used| {
      AheadNext(s.threads[t].start, s.threads[t].idx, |s.used|);
    }
  }

  lemma InvNext(s: State, e: Step)
    requires Inv(s) && Enabled(s, e)
    ensures Inv(Next(s, e)) && |Next(s, e).used| == |s.used|
  {
    forall t: nat | t < |s.threads| ensures InRange(Next(s, e).threads[t], |s.used|) {
      RangeNext(s, e, t);
    }
    hide Holders, InRange;
    forall i: nat ensures Holders(Next(s, e), i) == if i < |s.used| && Next(s, e).used[i] then 1 else 0 {
      HoldersNext(s, e, i);
    }
  }

  ghost function Start(n: nat, threads: nat): (s: State) {
    State(seq(n, _ => false), 0, seq(threads, _ => Outside), multiset{})
  }

  lemma {:induction false} NoWinners(threads: nat, i: nat)
    ensures Winners(seq(threads, _ => Outside), i) == 0
  {
    if threads > 0 {
      NoWinners(threads - 1, i);
      assert seq(threads, _ => Outside)[1..] == seq(threads - 1, _ => Outside);
    }
  }

  /** s is reached from a new pool of n slots by the steps, in this order. */
  ghost predicate Reaches(n: nat, threads: nat, steps: seq<Step>, s: State)
    decreases |steps|
  {
    if steps == [] then s == Start(n, threads)
    else
      var last := |steps| - 1;
      exists p :: Reaches(n, threads, steps[..last], p) && Enabled(p, steps[last]) && s == Next(p, steps[last])
  }

  lemma {:induction false} ReachesInv(n: nat, threads: nat, steps: seq<Step>, s: State)
    requires Reaches(n, threads, steps, s)
    ensures Inv(s) && |s.used| == n
    decreases |steps|
  {
    hide Inv, Next, Enabled, Start;
    if steps == [] {
      StartInv(n, threads);
    } else {
      var last := |steps| - 1;
      var p :| Reaches(n, threads, steps[..last], p) && Enabled(p, steps[last]) && s == Next(p, steps[last]);
      ReachesInv(n, threads, steps[..last], p);
      InvNext(p, steps[last]);
    }
  }

  lemma StartInv(n: nat, threads: nat)
    ensures Inv(Start(n, threads)) && |Start(n, threads).used| == n
  {
    forall i: nat ensures Holders(Start(n, threads), i) == 0 {
      NoWinners(threads, i);
    }
  }

  /** Byte range of a slot. */
  ghost predicate InSlot(size: nat, i: nat, byte: nat) {
    i * size <= byte < i * size + size
  }

  lemma SlotsDisjoint(size: nat, i: nat, j: nat, byte: nat)
    requires i < j && InSlot(size, i, byte)
    ensures !InSlot(size, j, byte)
  {
    Later(i, j, size);
  }

  lemma Later(i: nat, j: nat, size: nat)
    requires i < j
    ensures j * size >= i * size + size
  {
    Distribute(j - i, i, size);
    assert (j - i - 1) * size >= 0;
    Distribute(j - i - 1, 1, size);
  }

  /**
  Under every interleaving each slot has at most one holder, callers and threads still
  inside counted together, and the messages of two held tags share no byte.
  */
  lemma OneHolder(n: nat, threads: nat, steps: seq<Step>, s: State, size: nat, i: nat, j: nat)
    requires Reaches(n, threads, steps, s)
    ensures |s.used| == n && Holders(s, i) <= 1 && (Holders(s, i) == 1 <==> i < n && s.used[i])
    ensures i != j ==> forall byte: nat :: !(InSlot(size, i, byte) && InSlot(size, j, byte))
  {
    ReachesInv(n, threads, steps, s);
    if i != j {
      forall byte: nat ensures !(InSlot(size, i, byte) && InSlot(size, j, byte)) {
        if InSlot(size, i, byte) && i < j {
          SlotsDisjoint(size, i, j, byte);
        } else if InSlot(size, j, byte) && j < i {
          SlotsDisjoint(size, j, i, byte);
        }
      }
    }
  }

  lemma MetAllIff(th: Thread, n: nat)
    requires th.Probing? && InRange(th, n)
    ensures th.cnt + 1 == n <==> forall i: nat :: i < n ==> i in th.met + {th.idx}
  {
    if th.cnt + 1 < n {
      AheadNext(th.start, th.idx, n);
      assert Slot(th.idx + 1, n) !in th.met + {th.idx};
    }
  }

  lemma InRangeOf(n: nat, threads: nat, steps: seq<Step>, s: State, t: nat)
    requires Reaches(n, threads, steps, s) && t < |s.threads|
    ensures |s.used| == n && InRange(s.threads[t], n)
  {
    hide Holders, InRange, Reaches;
    ReachesInv(n, threads, steps, s);
  }

  /**
  A probe ends a call with busy if and only if it meets a used slot and the thread has then
  met every slot of the pool, each of them used when it was looked at.
  */
  lemma BusyIff(n: nat, threads: nat, steps: seq<Step>, s: State, t: nat)
    requires Reaches(n, threads, steps, s) && Enabled(s, Probe(t))
    ensures var th := s.threads[t];
      Next(s, Probe(t)).threads[t].Outside? <==>
      s.used[th.idx] && forall i: nat :: i < n ==> i in th.met + {th.idx}
  {
    hide Reaches, InRange, Slot;
    InRangeOf(n, threads, steps, s, t);
    MetAllIff(s.threads[t], n);
  }

  // ---------- one thread at a time ----------

  datatype Got = Tag(tag: nat, offset: nat) | Busy | Invalid

  class Pool {
    const size: nat
    const used: array<bool>
    var tail: nat

    ghost predicate Valid() reads this {
      used.Length > 0 ==> tail < used.Length
    }

    constructor (n: nat, size: nat)
      ensures Valid() && fresh(used) && used.Length == n && this.size == size
      ensures forall i :: 0 <= i < n ==> !used[i]
    {
      this.size := size;
      used := new bool[n](_ => false);
      tail := 0;
    }

    /** wd_get_msg_from_pool: busy exactly when every slot is used. */
    method Get() returns (g: Got)
      requires Valid()
      modifies this, used
      ensures Valid()
      ensures g.Invalid? <==> used.Length == 0
      ensures g.Busy? <==> used.Length > 0 && forall i :: 0 <= i < used.Length ==> old(used[i])
      ensures g.Tag? ==>
        && 1 <= g.tag <= used.Length && !old(used[g.tag - 1]) && g.offset == size * (g.tag - 1)
        && used[..] == old(used[..])[g.tag - 1 := true] && tail == Slot(g.tag, used.Length)
      ensures !g.Tag? ==> used[..] == old(used[..]) && tail == old(tail)
    {
      var n := used.Length;
      if n == 0 {
        return Invalid;
      }
      hide Slot;
      var idx, cnt := tail, 0;
      SlotSmall(tail, n);
      while used[idx]
        invariant 0 <= cnt < n && 0 <= idx < n && idx == Slot(tail + cnt, n)
        invariant forall k :: 0 <= k < cnt ==> Probed(used[..], tail, k)
        decreases n - cnt
      {
        assert Probed(used[..], tail, cnt);
        idx := NextSlot(tail, cnt, idx, n);
        cnt := cnt + 1;
        if cnt == n {
          AllProbed(used[..], tail);
          return Busy;
        }
      }
      used[idx] := true;
      tail := Slot(idx + 1, n);
      g := Tag(idx + 1, size * idx);
    }

    /** wd_put_msg_to_pool: a tag outside 1..msg_num is ignored. */
    method Put(tag: nat)
      modifies used
      ensures used[..] ==
        if 1 <= tag <= used.Length then old(used[..])[tag - 1 := false] else old(used[..])
    {
      if tag == 0 || tag > used.Length {
        return;
      }
      used[tag - 1] := false;
    }

    /** wd_find_msg_in_pool within one pool: offset of the tag's message. */
    method Find(tag: nat) returns (found: bool, offset: nat)
      ensures found <==> 1 <= tag <= used.Length
      ensures found ==> offset == size * (tag - 1)
    {
      if tag == 0 || tag > used.Length {
        return false, 0;
      }
      return true, size * (tag - 1);
    }
  }

  datatype Lookup = Msg(offset: nat) | Refused | NoPool

  /**
  wd_find_msg_in_pool: the pool index, as an unsigned number, is refused only above the
  number of pools; the number itself passes and names no pool.
  */
  method FindMsg(pools: seq<Pool>, ctxIdx: int, tag: nat) returns (r: Lookup)
    requires |pools| < 0x8000_0000 && -0x8000_0000 <= ctxIdx < 0x8000_0000
    ensures r.NoPool? <==> ctxIdx == |pools|
    ensures r.Msg? <==> 0 <= ctxIdx < |pools| && 1 <= tag <= pools[ctxIdx].used.Length
    ensures r.Msg? ==> r.offset == pools[ctxIdx].size * (tag - 1)
  {
    if ctxIdx % 0x1_0000_0000 > |pools| { return Refused; }
    if ctxIdx == |pools| { return NoPool; }
    var found, offset := pools[ctxIdx].Find(tag);
    return if found then Msg(offset) else Refused;
  }

  /** n probes in a row from any start meet every slot. */
  lemma AllProbed(used: seq<bool>, tail: nat)
    requires tail < |used|
    requires forall k :: 0 <= k < |used| ==> Probed(used, tail, k)
    ensures forall i :: 0 <= i < |used| ==> used[i]
  {
    var n := |used|;
    forall i | 0 <= i < n ensures used[i] {
      var k := if i >= tail then i - tail else i + n - tail;
      assert Probed(used, tail, k);
      SlotSmall(tail + k, n);
    }
  }

  /** The k-th probe from tail meets a used slot. */
  ghost predicate Probed(used: seq<bool>, tail: nat, k: nat)
    requires |used| > 0
  {
    Slot(tail + k, |used|) < |used| && used[Slot(tail + k, |used|)]
  }

  /** (idx + 1) % n, where idx is k places after from. */
  function NextSlot(from: nat, k: nat, idx: nat, n: nat): (next: nat)
    requires n > 0 && idx == Slot(from + k, n)
    ensures next == Slot(from + k + 1, n) < n
  {
    SlotAdd(from + k, 1, n);
    (idx + 1) % n
  }
}
