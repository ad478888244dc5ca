/**
The driver's side of the queue pair as the source runs it: rings updated in
place by hisi_qm_send and hisi_qm_recv.  Each call is tied to the steps of the
transition system in QpRing, so everything proved there about runs holds of
sequences of calls.
*/
module QueuePair {
  import opened ModArith
  import opened QpRing

  datatype SendStatus = Sent | Busy | TxError
  datatype RecvStatus<T> = Got(entry: T) | Again | BadIndex | RxError

  /** The value an undisturbed send leaves: the batch copied in, tail and doorbell moved, counter raised. */
  ghost function AfterSend<T>(s: Qp<T>, batch: seq<T>): Qp<T>
    requires Shape(s) && |batch| < |s.sq|
  {
    var tail := Slot(s.sqTail + |batch|, |s.sq|);
    s.(sq := FillSqe(s.sq, s.sqTail, batch), sqTail := tail, doorbell := tail,
       sent := s.sent + batch, usedNum := (s.usedNum + |batch|) % U16)
  }

  /** The value an undisturbed receive leaves when it is handed `entry`. */
  ghost function AfterRecv<T>(s: Qp<T>, entry: T): Qp<T> {
    var wrap := s.cqHead == |s.cq| - 1;
    s.(cqHead := if wrap then 0 else s.cqHead + 1,
       cqcPhase := if wrap then !s.cqcPhase else s.cqcPhase,
       usedNum := (s.usedNum - 1) % U16,
       received := s.received + [entry])
  }

  lemma GrantFits<T>(s: Qp<T>, batch: seq<T>)
    requires Inv(s) && s.sender.SendIdle? && FreeNum(s) != 0 && |batch| <= FreeNum(s)
    ensures Enabled(s, Load(batch))
  {
    NarrowSum(|s.sq| - 1, 0 - s.usedNum);
  }

  /** A send whose space was granted is a run, abandoned or rung in. */
  lemma SendEffect<T(!new)>(s: Qp<T>, batch: seq<T>)
    requires Reachable(s) && Shape(s) && s.sender.SendIdle? && FreeNum(s) != 0 && |batch| <= FreeNum(s)
    ensures |batch| < |s.sq|
    ensures Reachable(AfterSend(s, batch))
    ensures Reachable(s.(sq := FillSqe(s.sq, s.sqTail, batch)))
  {
    ReachableInv(s);
    GrantFits(s, batch);
    FillReaches(s, batch);
    AbandonReaches(s, batch);
    RingReaches(s, batch);
    AddReaches(s, batch);
  }

  lemma FillReaches<T(!new)>(s: Qp<T>, batch: seq<T>)
    requires Reachable(s) && Shape(s) && Enabled(s, Load(batch))
    ensures Reachable(s.(sq := FillSqe(s.sq, s.sqTail, batch), sender := Filled(batch)))
  {
    ReachableStep(s, Load(batch));
    ReachableStep(s.(sender := Loaded(batch)), Fill);
  }

  lemma RingReaches<T(!new)>(s: Qp<T>, batch: seq<T>)
    requires Shape(s) && |batch| < |s.sq| && s.sender.SendIdle?
    requires Reachable(s.(sq := FillSqe(s.sq, s.sqTail, batch), sender := Filled(batch)))
    ensures Reachable(AfterSend(s, batch).(usedNum := s.usedNum, sender := Rung(|batch|)))
  {
    ReachableStep(s.(sq := FillSqe(s.sq, s.sqTail, batch), sender := Filled(batch)), Ring);
  }

  lemma AddReaches<T(!new)>(s: Qp<T>, batch: seq<T>)
    requires Shape(s) && |batch| < |s.sq| && s.sender.SendIdle?
    requires Reachable(AfterSend(s, batch).(usedNum := s.usedNum, sender := Rung(|batch|)))
    ensures Reachable(AfterSend(s, batch))
  {
    ReachableStep(AfterSend(s, batch).(usedNum := s.usedNum, sender := Rung(|batch|)), Add);
  }

  lemma AbandonReaches<T(!new)>(s: Qp<T>, batch: seq<T>)
    requires Shape(s) && |batch| < |s.sq| && s.sender.SendIdle?
    requires Reachable(s.(sq := FillSqe(s.sq, s.sqTail, batch), sender := Filled(batch)))
    ensures Reachable(s.(sq := FillSqe(s.sq, s.sqTail, batch)))
  {
    ReachableStep(s.(sq := FillSqe(s.sq, s.sqTail, batch), sender := Filled(batch)), TxDisabled);
  }

  lemma TakeReaches<T(!new)>(s: Qp<T>)
    requires Reachable(s) && Shape(s) && Enabled(s, Take)
    ensures var r := AfterRecv(s, s.sq[s.cq[s.cqHead].sqHead]);
            Reachable(r.(cqHead := s.cqHead, usedNum := s.usedNum, receiver := Taken(r.cqHead)))
  {
    ReachableStep(s, Take);
  }

  lemma SubReaches<T(!new)>(s: Qp<T>)
    requires Shape(s) && Reachable(s.(receiver := HeadSet))
    ensures Reachable(s.(usedNum := (s.usedNum - 1) % U16, receiver := RecvIdle))
  {
    ReachableStep(s.(receiver := HeadSet), Sub);
  }

  lemma RecvReaches<T(!new)>(s: Qp<T>)
    requires Reachable(s) && Shape(s) && Enabled(s, Take)
    ensures Reachable(AfterRecv(s, s.sq[s.cq[s.cqHead].sqHead]))
  {
    hide Reachable;
    TakeReaches(s);
    var r := AfterRecv(s, s.sq[s.cq[s.cqHead].sqHead]);
    ReachableStep(r.(cqHead := s.cqHead, usedNum := s.usedNum, receiver := Taken(r.cqHead)), SetHead);
    SubReaches(r.(usedNum := s.usedNum));
  }

  /** What was handed out since a point in time is the next stretch of the answers. */
  lemma HandedOut<T(!new)>(s: Qp<T>, before: seq<T>, resp: seq<T>)
    requires Reachable(s) && s.received == before + resp
    ensures |s.received| <= |s.answers| && resp == s.answers[|before|..|before| + |resp|]
  {
    ReachableInv(s);
    assert resp == s.received[|before|..];
  }

  /** The phase test and the entry it leads to, in any reachable state with an idle receiver. */
  lemma RecvEffect<T(!new)>(s: Qp<T>)
    requires Reachable(s) && s.receiver.RecvIdle?
    ensures Shape(s) && |s.received| <= |s.answers|
    ensures s.cq[s.cqHead].phase == s.cqcPhase <==> |s.received| < |s.answers|
    ensures |s.received| < |s.answers| ==>
      && s.cq[s.cqHead].sqHead < |s.sq|
      && s.sq[s.cq[s.cqHead].sqHead] == s.answers[|s.received|]
      && Reachable(AfterRecv(s, s.answers[|s.received|]))
  {
    ReachableInv(s);
    PhaseTestExact(s);
    if |s.received| < |s.answers| {
      RecvReaches(s);
    }
  }

  /**
  The error return at drv/hisi_qm_udrv.c:600-604 leaves head and used_num alone
  but has already stored the next phase.
  */
  ghost function AfterRxError<T>(s: Qp<T>): Qp<T> {
    s.(cqcPhase := if s.cqHead == |s.cq| - 1 then !s.cqcPhase else s.cqcPhase)
  }

  /** It leaves a consistent queue exactly when the head was not on the last completion slot. */
  lemma RxErrorConsistent<T>(s: Qp<T>)
    requires Inv(s) && Enabled(s, Take)
    ensures Inv(AfterRxError(s)) <==> s.cqHead != |s.cq| - 1
  {
    if s.cqHead != |s.cq| - 1 {
      assert AfterRxError(s) == s;
    }
  }

  lemma InitReachable<T(!new)>(s: Qp<T>)
    requires Init(s)
    ensures Reachable(s)
  {
    assert ReachedBy(s, [], s);
  }

  class Queue<T(!new)> {
    const sq: array<T>
    const cq: array<Cqe>
    var sqTail: nat
    var cqHead: nat
    var cqcPhase: bool
    var usedNum: nat
    var doorbell: nat
    /** The protocol state seen between calls, with the device's registers and the history. */
    ghost var view: Qp<T>

    ghost predicate Valid()
      reads this, sq, cq
    {
      Mirrors() && Shape(view) && Reachable(view)
    }

    ghost predicate Mirrors()
      reads this, sq, cq
    {
      && (sq as object) != cq
      && view.sq == sq[..] && view.cq == cq[..]
      && view.sqTail == sqTail && view.cqHead == cqHead && view.cqcPhase == cqcPhase
      && view.usedNum == usedNum && view.doorbell == doorbell
      && view.sender.SendIdle? && view.receiver.RecvIdle?
    }

    /** hisi_qm_setup_info: cleared rings and registers, expected phase 1. */
    constructor (sqDepth: nat, cqDepth: nat, blank: T)
      requires 0 < sqDepth < U16 && sqDepth <= cqDepth
      ensures Valid() && fresh(sq) && fresh(cq) && sq.Length == sqDepth && cq.Length == cqDepth
      ensures view.sent == view.answers == view.received == []
      ensures cqcPhase && sqTail == cqHead == usedNum == doorbell == 0 && forall i :: 0 <= i < cqDepth ==> !cq[i].phase
    {
      var slots := new T[sqDepth](_ => blank);
      var entries := new Cqe[cqDepth](_ => Cqe(false, 0));
      sq, cq := slots, entries;
      sqTail, cqHead, cqcPhase, usedNum, doorbell := 0, 0, true, 0, 0;
      view := Qp(slots[..], entries[..], 0, 0, true, 0, 0, 0, 0, true, SendIdle, RecvIdle, [], [], []);
      new;
      InitReachable(view);
    }

    /**
    The device answers the oldest submission, from its own registers: its entry, and a
    completion with the present phase.
    */
    method DeviceCompletes(answer: T, sqHead: nat, cqTail: nat, phase: bool)
      requires Valid() && view.devSqHead != view.doorbell
      requires sqHead == view.devSqHead && cqTail == view.devCqTail && phase == view.devPhase
      modifies this`view, sq, cq
      ensures Valid() && view == Apply(old(view), Complete(answer))
      ensures view.answers == old(view).answers + [answer] && view.received == old(view).received
    {
      hide Reachable;
      ReachableStep(view, Complete(answer));
      sq[sqHead] := answer;
      cq[cqTail] := Cqe(phase, sqHead);
      view := Apply(view, Complete(answer));
    }

    /** The memory that hisi_qm_fill_sqe's one or two copies leave behind. */
    method FillSlots(tail: nat, batch: seq<T>)
      requires tail < sq.Length && |batch| < sq.Length
      modifies sq
      ensures sq[..] == FillSqe(old(sq[..]), tail, batch)
    {
      ghost var was := sq[..];
      if tail + |batch| < sq.Length {
        forall i | 0 <= i < |batch| { sq[tail + i] := batch[i]; }
      } else {
        var idx := sq.Length - tail;
        forall i | 0 <= i < idx { sq[tail + i] := batch[i]; }
        forall i | 0 <= i < |batch| - idx { sq[i] := batch[idx + i]; }
      }
      ghost var now := FillSqe(was, tail, batch);
      forall i | 0 <= i < sq.Length ensures sq[i] == now[i] {
        if tail <= i < tail + |batch| {
          assert now[i] == batch[i - tail];
        }
      }
      assert sq[..] == now;
    }

    /** The part of hisi_qm_send after the space check: copy, status check, doorbell, counter. */
    method Submit(batch: seq<T>, txDisabled: bool) returns (ok: bool)
      requires Valid() && FreeNum(view) != 0 && |batch| <= FreeNum(view)
      modifies this, sq
      ensures Valid() && ok == !txDisabled
      ensures ok ==> |batch| < |old(view).sq| && view == AfterSend(old(view), batch)
      ensures !ok ==> view == old(view).(sq := view.sq)
    {
      hide Reachable;
      SendEffect(view, batch);
      ghost var done := AfterSend(view, batch);
      ghost var abandoned := view.(sq := done.sq);
      FillSlots(sqTail, batch);
      if txDisabled {
        view := abandoned;
        return false;
      }
      var tail := Slot(sqTail + |batch|, sq.Length);
      doorbell := tail;
      sqTail := tail;
      usedNum := (usedNum + |batch|) % U16;
      view := done;
      return true;
    }

    /** hisi_qm_send: busy exactly when as much is in flight as the ring holds, or the batch is more than the rest. */
    method Send(batch: seq<T>, txDisabled: bool) returns (ret: SendStatus)
      requires Valid()
      modifies this, sq
      ensures Valid() && |old(view).received| <= |old(view).sent|
      ensures ret.Busy? <==> var inFlight := |old(view).sent| - |old(view).received|;
        inFlight == sq.Length - 1 || |batch| > sq.Length - 1 - inFlight
      ensures ret.Busy? ==> view == old(view)
      ensures !ret.Busy? ==> (ret.TxError? <==> txDisabled)
      ensures ret.TxError? ==> view == old(view).(sq := view.sq)
      ensures ret.Sent? ==> |batch| < |old(view).sq| && view == AfterSend(old(view), batch)
    {
      FreeNumIs(view);
      var freeNum := (sq.Length - 1 - usedNum) % U16;
      if freeNum == 0 { return Busy; }
      if |batch| > freeNum { return Busy; }
      var ok := Submit(batch, txDisabled);
      return if ok then Sent else TxError;
    }

    /** rxDisabled is the status register as read just before the completion doorbell. */
    method RecvSingle(rxDisabled: bool) returns (ret: RecvStatus<T>)
      requires Valid()
      modifies this
      ensures Mirrors() && !ret.BadIndex?
      ensures ret.Again? <==> |old(view).received| == |old(view).answers|
      ensures ret.Again? ==> view == old(view)
      ensures ret.Got? ==> |old(view).received| < |view.answers|
                           && ret.entry == view.answers[|old(view).received|]
      ensures ret.Got? ==> Valid() && view == AfterRecv(old(view), ret.entry)
      ensures !ret.Again? ==> (ret.RxError? <==> rxDisabled)
      ensures ret.RxError? ==> view == AfterRxError(old(view))
      ensures view.answers == old(view).answers && view.sent == old(view).sent
      ensures view.received == old(view).received + if ret.Got? then [ret.entry] else []
      ensures !ret.RxError? ==> Valid()
    {
      ghost var s := view;
      RecvEffect(s);
      var i := cqHead;
      var cqe := cq[i];
      if cqcPhase != cqe.phase { return Again; }
      var j := cqe.sqHead;
      if j >= sq.Length { return BadIndex; }
      var entry := sq[j];
      if i == cq.Length - 1 {
        cqcPhase := !cqcPhase;
        i := 0;
      } else {
        i := i + 1;
      }
      if rxDisabled {
        view := AfterRxError(s);
        return RxError;
      }
      cqHead := i;
      usedNum := (usedNum - 1) % U16;
      view := AfterRecv(s, entry);
      return Got(entry);
    }

    /**
    hisi_qm_recv: take up to `wanted` entries, stop at the first failure.  rxBefore is the
    status register at the start, rxAt(i) the same before the i-th completion doorbell.
    `last` is the state before a receive that failed on it.
    */
    method Recv(wanted: nat, rxBefore: bool, rxAt: nat -> bool) returns (resp: seq<T>, ret: RecvEnd, ghost last: Qp<T>)
      requires Valid()
      modifies this
      ensures Mirrors() && view.answers == old(view).answers && view.sent == old(view).sent
      ensures |resp| == if wanted > 0 && rxBefore then 0 else FirstError(rxAt, Available(old(view), wanted))
      ensures view.received == old(view).received + resp && |view.received| <= |view.answers|
      ensures resp == view.answers[|old(view).received|..|view.received|]
      ensures ret.AllTaken? <==> |resp| == wanted
      ensures ret.HwError? <==> wanted > 0 && (rxBefore || |resp| < Available(old(view), wanted))
      ensures !ret.HwError? || rxBefore ==> Valid()
      ensures ret.HwError? && !rxBefore ==> Reachable(last) && view == AfterRxError(last)
    {
      hide *;
      resp, ret, last := [], AllTaken, view;
      ghost var s0 := view;
      StartRecv(this, wanted, rxAt);
      if wanted == 0 { return; }
      if rxBefore { return resp, HwError, view; }
      ghost var most := Available(s0, wanted);
      while |resp| < wanted
        invariant Valid() && view.answers == s0.answers && view.sent == s0.sent
        invariant |resp| <= most && |view.received| == |s0.received| + |resp| <= |view.answers|
        invariant view.received == s0.received + resp && resp == view.answers[|s0.received|..|view.received|]
        invariant ret.AllTaken? && forall i: nat :: i < |resp| ==> !rxAt(i)
        decreases wanted - |resp|
      {
        FirstErrorIs(rxAt, most, |resp|);
        AvailableMeans(s0, wanted);
        ValidMeans(this);
        last := view;
        var one := RecvSingle(rxAt(|resp|));
        if !one.Got? {
          ret := if one.Again? then NoMore else HwError;
          return;
        }
        resp := resp + [one.entry];
      }
      AvailableMeans(s0, wanted);
      FirstErrorIs(rxAt, most, |resp|);
      ValidMeans(this);
    }
  }

  lemma ValidMeans<T(!new)>(q: Queue<T>)
    requires q.Valid()
    ensures q.Mirrors() && Reachable(q.view)
  {
  }

  lemma StartRecv<T(!new)>(q: Queue<T>, wanted: nat, rxAt: nat -> bool)
    requires q.Valid()
    ensures q.Mirrors() && Reachable(q.view) && |q.view.received| <= |q.view.answers|
    ensures wanted == 0 ==> FirstError(rxAt, Available(q.view, wanted)) == 0
  {
    RecvEffect(q.view);
  }

  /** Entries a receive of `wanted` can take: no more than were asked for, and than are unread. */
  function Available<T>(s: Qp<T>, wanted: nat): (n: nat) {
    if |s.answers| <= |s.received| then 0
    else if wanted < |s.answers| - |s.received| then wanted else |s.answers| - |s.received|
  }

  lemma AvailableMeans<T>(s: Qp<T>, wanted: nat)
    requires |s.received| <= |s.answers|
    ensures Available(s, wanted) == Min(wanted, |s.answers| - |s.received|)
    ensures Available(s, wanted) <= wanted && Available(s, wanted) <= |s.answers| - |s.received|
    ensures Available(s, wanted) == wanted || Available(s, wanted) == |s.answers| - |s.received|
  {
  }

  datatype RecvEnd = AllTaken | NoMore | HwError

  /** The first of k status readings that reports an error, or k. */
  ghost function FirstError(rxAt: nat -> bool, k: nat): (e: nat)
    ensures e <= k && (e < k ==> rxAt(e)) && forall i: nat :: i < e ==> !rxAt(i)
  {
    if k == 0 then 0
    else
      var e := FirstError(rxAt, k - 1);
      if e < k - 1 || rxAt(k - 1) then e else k
  }

  lemma {:induction false} FirstErrorIs(rxAt: nat -> bool, k: nat, e: nat)
    requires e <= k && forall i: nat :: i < e ==> !rxAt(i)
    ensures e < k && rxAt(e) ==> FirstError(rxAt, k) == e
    ensures e == k ==> FirstError(rxAt, k) == k
    decreases k
  {
    if k > 0 {
      FirstErrorIs(rxAt, k - 1, if e < k then e else k - 1);
    }
  }

  /** Between calls the counter is the number in flight, and the registers stand where the history says. */
  lemma IdleFacts<T(!new)>(s: Qp<T>)
    requires Reachable(s) && s.sender.SendIdle? && s.receiver.RecvIdle?
    ensures Shape(s) && |s.received| <= |s.answers| <= |s.sent| && s.usedNum == |s.sent| - |s.received|
    ensures s.cqHead == Slot(|s.received|, |s.cq|) && s.devSqHead == Slot(|s.answers|, |s.sq|)
    ensures s.devCqTail == Slot(|s.answers|, |s.cq|) && s.devPhase == Phase(|s.answers|, |s.cq|)
    ensures |s.answers| < |s.sent| ==> s.devSqHead != s.doorbell
    ensures |s.received| < |s.answers| ==> Inv(s) && Enabled(s, Take)
  {
    ReachableInv(s);
    PhaseTestExact(s);
    if |s.answers| < |s.sent| {
      SlotDistinct(|s.answers|, |s.sent|, |s.sq|);
    }
  }

  /** Between calls the free space is the ring, less the reserved slot and what is in flight. */
  lemma FreeNumIs<T(!new)>(s: Qp<T>)
    requires Reachable(s) && Shape(s) && s.sender.SendIdle? && s.receiver.RecvIdle?
    ensures |s.received| <= |s.sent| && FreeNum(s) == |s.sq| - 1 - (|s.sent| - |s.received|)
  {
    IdleFacts(s);
    ReachableInv(s);
    NarrowSum(|s.sq| - 1, 0 - s.usedNum);
  }

  /** One entry sent, answered and left for the receiver. */
  method SendAnswered(q: Queue<int>, entry: int, sqHead: nat, cqTail: nat, phase: bool) returns (ok: bool)
    requires q.Valid() && |q.view.received| == |q.view.answers| == |q.view.sent| && q.sq.Length == 2
    requires sqHead == q.view.devSqHead && cqTail == q.view.devCqTail && phase == q.view.devPhase
    modifies q, q.sq, q.cq
    ensures q.Valid() && ok && |q.view.answers| == |old(q.view).answers| + 1 == |q.view.sent|
    ensures q.view.received == old(q.view).received
  {
    hide Reachable;
    IdleFacts(q.view);
    var ret := q.Send([entry], false);
    IdleFacts(q.view);
    q.DeviceCompletes(entry, sqHead, cqTail, phase);
    ok := ret.Sent?;
  }

  /** Two slots; the second completion is taken while the status register reports an error: the queue is broken. */
  method RxErrorBreaks() returns (q: Queue<int>, ret: RecvStatus<int>)
    ensures ret.RxError? && !Inv(q.view)
  {
    hide Reachable, Inv;
    q := new Queue(2, 2, 0);
    IdleFacts(q.view);
    var ok := SendAnswered(q, 7, 0, 0, true);
    var resp, end, last := q.Recv(1, false, _ => false);
    IdleFacts(q.view);
    ok := SendAnswered(q, 8, 1, 1, true);
    IdleFacts(q.view);
    RxErrorConsistent(q.view);
    ret := q.RecvSingle(true);
  }
}
