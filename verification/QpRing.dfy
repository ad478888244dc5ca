/**
The queue-pair ring of drv/hisi_qm_udrv.c as a transition system.

A sender (holding sd_lock), a receiver (holding rv_lock) and the device take
turns.  Every access to shared memory that another party can observe is a step
of its own, so a run is any interleaving of the two locked regions with the
device.  The device completes submissions in order and may rewrite a submission
slot when it completes it.
*/
module QpRing {
  import opened ModArith

  /** used_num and free_num are 16-bit. */
  const U16: nat := 0x1_0000

  datatype Cqe = Cqe(phase: bool, sqHead: nat)

  /** Where the thread holding sd_lock stands in hisi_qm_send. */
  datatype Sender<T> =
    | SendIdle
    | Loaded(batch: seq<T>)    // free_num was read and found large enough
    | Filled(batch: seq<T>)    // entries copied, doorbell not rung
    | Rung(count: nat)         // doorbell rung, used_num not yet raised

  /** Where the thread holding rv_lock stands in hisi_qm_recv_single. */
  datatype Receiver =
    | RecvIdle
    | Taken(next: nat)         // entry copied out, phase updated, head not yet stored
    | HeadSet                  // head stored, used_num not yet lowered

  /**
  The shared queue, the device's own registers, and the history of the run:
  what was submitted, what the device answered, what the receiver was handed.
  */
  datatype Qp<T> = Qp(
    sq: seq<T>, cq: seq<Cqe>,
    sqTail: nat, cqHead: nat, cqcPhase: bool, usedNum: nat,
    doorbell: nat, devSqHead: nat, devCqTail: nat, devPhase: bool,
    sender: Sender<T>, receiver: Receiver,
    sent: seq<T>, answers: seq<T>, received: seq<T>)

  datatype Step<T> =
    | Load(batch: seq<T>) | Fill | TxDisabled | Ring | Add
    | Complete(answer: T)
    | Take | SetHead | Sub

  /** A value within one wrap of zero, stored in a 16-bit counter. */
  function Narrow16(x: int): (r: int) {
    if x < 0 then x + U16 else x
  }

  /** get_free_num, narrowed to the 16-bit variable that receives it. */
  function FreeNum(s: Qp): (f: nat)
    requires 0 < |s.sq| < U16 && s.usedNum < U16
  {
    (|s.sq| - 1 - s.usedNum) % U16
  }

  /** hisi_qm_fill_sqe: one copy, or two when the batch reaches the end of the ring. */
  function FillSqe<T>(sq: seq<T>, tail: nat, batch: seq<T>): (r: seq<T>)
    requires tail < |sq| && |batch| < |sq|
    ensures |r| == |sq|
  {
    if tail + |batch| < |sq| then
      sq[..tail] + batch + sq[tail + |batch|..]
    else
      var idx := |sq| - tail;
      batch[idx..] + sq[|batch| - idx..tail] + batch[..idx]
  }

  predicate Shape(s: Qp) {
    && 0 < |s.sq| < U16 && |s.sq| <= |s.cq|
    && s.sqTail < |s.sq| && s.cqHead < |s.cq| && s.usedNum < U16
    && s.devSqHead < |s.sq| && s.devCqTail < |s.cq|
    && (s.sender.Loaded? || s.sender.Filled? ==> |s.sender.batch| < |s.sq|)
  }

  predicate Enabled<T>(s: Qp<T>, step: Step<T>)
    requires Shape(s)
  {
    match step
    case Load(batch) =>
      s.sender.SendIdle? && FreeNum(s) != 0 && |batch| <= FreeNum(s) && |batch| < |s.sq|
    case Fill => s.sender.Loaded?
    case TxDisabled => s.sender.Filled?
    case Ring => s.sender.Filled?
    case Add => s.sender.Rung?
    case Complete(_) => s.devSqHead != s.doorbell
    case Take =>
      s.receiver.RecvIdle? && s.cq[s.cqHead].phase == s.cqcPhase && s.cq[s.cqHead].sqHead < |s.sq|
    case SetHead => s.receiver.Taken? && s.receiver.next < |s.cq|
    case Sub => s.receiver.HeadSet?
  }

  function Apply<T>(s: Qp<T>, step: Step<T>): (s': Qp<T>)
    requires Shape(s) && Enabled(s, step)
    ensures Shape(s')
  {
    match step
    case Load(batch) => s.(sender := Loaded(batch))
    case Fill => s.(sq := FillSqe(s.sq, s.sqTail, s.sender.batch), sender := Filled(s.sender.batch))
    case TxDisabled => s.(sender := SendIdle)
    case Ring =>
      var tail := Slot(s.sqTail + |s.sender.batch|, |s.sq|);
      s.(doorbell := tail, sqTail := tail, sent := s.sent + s.sender.batch,
         sender := Rung(|s.sender.batch|))
    case Add => s.(usedNum := (s.usedNum + s.sender.count) % U16, sender := SendIdle)
    case Complete(answer) =>
      var wrap := s.devCqTail == |s.cq| - 1;
      s.(sq := s.sq[s.devSqHead := answer],
         cq := s.cq[s.devCqTail := Cqe(s.devPhase, s.devSqHead)],
         devSqHead := if s.devSqHead == |s.sq| - 1 then 0 else s.devSqHead + 1,
         devCqTail := if wrap then 0 else s.devCqTail + 1,
         devPhase := if wrap then !s.devPhase else s.devPhase,
         answers := s.answers + [answer])
    case Take =>
      var wrap := s.cqHead == |s.cq| - 1;
      s.(received := s.received + [s.sq[s.cq[s.cqHead].sqHead]],
         cqcPhase := if wrap then !s.cqcPhase else s.cqcPhase,
         receiver := Taken(if wrap then 0 else s.cqHead + 1))
    case SetHead => s.(cqHead := s.receiver.next, receiver := HeadSet)
    case Sub => s.(usedNum := (s.usedNum - 1) % U16, receiver := RecvIdle)
  }

  /** hisi_qm_setup_info: everything zero except the expected phase. */
  ghost predicate Init(s: Qp) {
    && 0 < |s.sq| < U16 && |s.sq| <= |s.cq|
    && (forall i :: 0 <= i < |s.cq| ==> !s.cq[i].phase)
    && s.sqTail == s.cqHead == s.usedNum == s.doorbell == s.devSqHead == s.devCqTail == 0
    && s.cqcPhase && s.devPhase
    && s.sender.SendIdle? && s.receiver.RecvIdle?
    && s.sent == s.answers == s.received == []
  }

  ghost predicate ValidRun<T>(s: Qp<T>, steps: seq<Step<T>>)
    requires Shape(s)
    decreases |steps|
  {
    steps == [] || (Enabled(s, steps[0]) && ValidRun(Apply(s, steps[0]), steps[1..]))
  }

  ghost function Exec<T>(s: Qp<T>, steps: seq<Step<T>>): (r: Qp<T>)
    requires Shape(s) && ValidRun(s, steps)
    ensures Shape(r)
    decreases |steps|
  {
    if steps == [] then s else Exec(Apply(s, steps[0]), steps[1..])
  }

  // ---------- the invariant ----------

  /** How many receptions have already lowered used_num. */
  function Released(s: Qp): (n: int) {
    |s.received| - if s.receiver.RecvIdle? then 0 else 1
  }

  /** Entries rung in but not yet counted in used_num. */
  function Uncounted(s: Qp): (n: nat) {
    if s.sender.Rung? then s.sender.count else 0
  }

  /** Entries whose space was granted but which are not rung in yet. */
  function Granted(s: Qp): (n: nat) {
    if s.sender.Loaded? || s.sender.Filled? then |s.sender.batch| else 0
  }

  ghost predicate Counters(s: Qp) {
    && |s.received| <= |s.answers| <= |s.sent|
    && 0 <= Released(s)
    && |s.sent| - Released(s) + Granted(s) <= |s.sq| - 1
    && Uncounted(s) < |s.sq| < U16
    && s.usedNum == Narrow16(|s.sent| - Released(s) - Uncounted(s))
  }

  ghost predicate Registers(s: Qp)
    requires 0 < |s.sq| && 0 < |s.cq|
  {
    && s.sqTail == s.doorbell == Slot(|s.sent|, |s.sq|)
    && s.devSqHead == Slot(|s.answers|, |s.sq|)
    && s.devCqTail == Slot(|s.answers|, |s.cq|)
    && s.devPhase == Phase(|s.answers|, |s.cq|)
    && s.cqcPhase == Phase(|s.received|, |s.cq|)
    && match s.receiver
       case Taken(next) => next == Slot(|s.received|, |s.cq|)
       case _ => s.cqHead == Slot(|s.received|, |s.cq|)
  }

  /** Entries lo..|sent| are submitted and not completed: their slots hold what was sent. */
  ghost predicate PendingIntact<T>(sq: seq<T>, sent: seq<T>, lo: nat)
    requires 0 < |sq|
  {
    forall k :: lo <= k < |sent| ==> sq[Slot(k, |sq|)] == sent[k]
  }

  /** Entries lo..|answers| are completed and not received: their slots hold the answers. */
  ghost predicate AnswersIntact<T>(sq: seq<T>, answers: seq<T>, lo: nat)
    requires 0 < |sq|
  {
    forall k :: lo <= k < |answers| ==> sq[Slot(k, |sq|)] == answers[k]
  }

  /**
  Completion slots from lo on, one lap long: below hi they are fresh, with this
  lap's phase and the index of the completed submission; from hi on they carry
  the phase of the previous lap.
  */
  ghost predicate CqWindow(cq: seq<Cqe>, lo: nat, hi: nat, n: nat)
    requires 0 < |cq| && 0 < n
  {
    forall k :: lo <= k < lo + |cq| ==>
      if k < hi then cq[Slot(k, |cq|)] == Cqe(Phase(k, |cq|), Slot(k, n))
      else cq[Slot(k, |cq|)].phase == !Phase(k, |cq|)
  }

  /** A batch already copied sits right after the submitted entries. */
  ghost predicate BatchInPlace<T>(sq: seq<T>, sender: Sender<T>, t: nat)
    requires 0 < |sq|
  {
    sender.Filled? ==>
      forall k :: 0 <= k < |sender.batch| ==> sq[Slot(t + k, |sq|)] == sender.batch[k]
  }

  ghost predicate Inv<T>(s: Qp<T>) {
    && Shape(s)
    && Counters(s)
    && Registers(s)
    && PendingIntact(s.sq, s.sent, |s.answers|)
    && AnswersIntact(s.sq, s.answers, |s.received|)
    && CqWindow(s.cq, |s.received|, |s.answers|, |s.sq|)
    && BatchInPlace(s.sq, s.sender, |s.sent|)
    && s.received == s.answers[..|s.received|]
  }

  lemma InitInv(s: Qp)
    requires Init(s)
    ensures Inv(s)
  {
    forall k | 0 <= k < |s.cq| ensures s.cq[Slot(k, |s.cq|)].phase == !Phase(k, |s.cq|) {
      DivModUnique(k, |s.cq|, 0, k);
    }
    DivModUnique(0, |s.cq|, 0, 0);
    DivModUnique(0, |s.sq|, 0, 0);
  }

  // ---------- preservation, one lemma per step ----------

  /** Slot (tail + k) mod depth holds batch[k]; every slot outside the batch is untouched. */
  lemma FillSqeSlot<T>(sq: seq<T>, tail: nat, batch: seq<T>, k: nat)
    requires tail < |sq| && |batch| < |sq| && k < |sq|
    ensures FillSqe(sq, tail, batch)[Slot(tail + k, |sq|)]
         == if k < |batch| then batch[k] else sq[Slot(tail + k, |sq|)]
  {
    SlotSmall(tail + k, |sq|);
  }

  /** 16-bit addition and subtraction agree with the unbounded ones up to the wrap. */
  lemma NarrowSum(x: int, c: int)
    requires 0 - U16 < x < U16 && 0 - U16 < x + c < U16
    ensures (Narrow16(x) + c) % U16 == (if 0 <= x + c then x + c else x + c + U16)
  {
  }

  lemma LoadInv<T>(s: Qp<T>, batch: seq<T>)
    requires Inv(s) && Enabled(s, Load(batch))
    ensures Inv(Apply(s, Load(batch)))
  {
    NarrowSum(|s.sq| - 1, 0 - s.usedNum);
  }

  /** Copying a granted batch behind the submitted entries keeps every outstanding slot. */
  lemma FillKeeps<T>(sq: seq<T>, sent: seq<T>, answers: seq<T>, r: nat, b: seq<T>)
    requires 0 < |sq| && r <= |answers| <= |sent| && |sent| - r + |b| < |sq|
    requires PendingIntact(sq, sent, |answers|) && AnswersIntact(sq, answers, r)
    ensures var sq' := FillSqe(sq, Slot(|sent|, |sq|), b);
            && PendingIntact(sq', sent, |answers|) && AnswersIntact(sq', answers, r)
            && BatchInPlace(sq', Filled(b), |sent|)
  {
    var n, t := |sq|, |sent|;
    var sq' := FillSqe(sq, Slot(t, n), b);
    // an outstanding entry k is position k + n, which lies past the batch
    forall k | r <= k < t ensures sq'[Slot(k, n)] == sq[Slot(k, n)] {
      FillSqeSlot(sq, Slot(t, n), b, k + n - t);
      SlotAdd(t, k + n - t, n);
      SlotLap(k, n);
    }
    forall k | 0 <= k < |b| ensures sq'[Slot(t + k, n)] == b[k] {
      FillSqeSlot(sq, Slot(t, n), b, k);
      SlotAdd(t, k, n);
    }
  }

  lemma FillInv<T>(s: Qp<T>)
    requires Inv(s) && Enabled(s, Fill)
    ensures Inv(Apply(s, Fill))
  {
    FillKeeps(s.sq, s.sent, s.answers, |s.received|, s.sender.batch);
  }

  lemma RingSq<T>(sq: seq<T>, sent: seq<T>, b: seq<T>, lo: nat)
    requires 0 < |sq| && PendingIntact(sq, sent, lo) && BatchInPlace(sq, Filled(b), |sent|)
    ensures PendingIntact(sq, sent + b, lo)
  {
    forall k | lo <= k < |sent| + |b| ensures sq[Slot(k, |sq|)] == (sent + b)[k] {
      if k >= |sent| {
        assert Slot(|sent| + (k - |sent|), |sq|) == Slot(k, |sq|);
      }
    }
  }

  lemma RingRegisters<T>(s: Qp<T>)
    requires Shape(s) && Counters(s) && Registers(s) && Enabled(s, Ring)
    ensures Counters(Apply(s, Ring)) && Registers(Apply(s, Ring))
  {
    SlotAdd(|s.sent|, |s.sender.batch|, |s.sq|);
  }

  lemma RingInv<T>(s: Qp<T>)
    requires Inv(s) && Enabled(s, Ring)
    ensures Inv(Apply(s, Ring))
  {
    RingRegisters(s);
    RingSq(s.sq, s.sent, s.sender.batch, |s.answers|);
  }

  lemma AddRegisters<T>(s: Qp<T>)
    requires Shape(s) && Registers(s) && Enabled(s, Add)
    ensures Registers(Apply(s, Add))
  {
  }

  lemma AddInv<T>(s: Qp<T>)
    requires Inv(s) && Enabled(s, Add)
    ensures Inv(Apply(s, Add))
  {
    hide CqWindow, PendingIntact, AnswersIntact, Registers;
    NarrowSum(|s.sent| - Released(s) - Uncounted(s), s.sender.count);
    assert Registers(Apply(s, Add)) by { AddRegisters(s); }
  }

  /** One slot of a ring is rewritten; every other slot of the lap starting at lo keeps its value. */
  lemma OneSlot<X>(ring: seq<X>, a: nat, x: X, lo: nat, k: nat)
    requires 0 < |ring| && lo <= a < lo + |ring| && lo <= k < lo + |ring|
    ensures ring[Slot(a, |ring|) := x][Slot(k, |ring|)] == if k == a then x else ring[Slot(k, |ring|)]
  {
    if k < a { SlotDistinct(k, a, |ring|); } else if a < k { SlotDistinct(a, k, |ring|); }
  }

  lemma CompleteSq<T>(sq: seq<T>, sent: seq<T>, answers: seq<T>, r: nat, answer: T, sender: Sender<T>)
    requires 0 < |sq| && r <= |answers| < |sent|
    requires |sent| - r + (if sender.Filled? then |sender.batch| else 0) < |sq|
    requires PendingIntact(sq, sent, |answers|) && AnswersIntact(sq, answers, r)
    requires BatchInPlace(sq, sender, |sent|)
    ensures var sq' := sq[Slot(|answers|, |sq|) := answer];
            && PendingIntact(sq', sent, |answers| + 1) && AnswersIntact(sq', answers + [answer], r)
            && BatchInPlace(sq', sender, |sent|)
  {
    var n, a := |sq|, |answers|;
    forall k | r <= k < r + n
      ensures sq[Slot(a, n) := answer][Slot(k, n)] == if k == a then answer else sq[Slot(k, n)]
    {
      OneSlot(sq, a, answer, r, k);
    }
  }

  lemma CompleteCq(cq: seq<Cqe>, r: nat, a: nat, n: nat)
    requires 0 < n && 0 < |cq| && r <= a < r + |cq|
    requires CqWindow(cq, r, a, n)
    ensures CqWindow(cq[Slot(a, |cq|) := Cqe(Phase(a, |cq|), Slot(a, n))], r, a + 1, n)
  {
    var e := Cqe(Phase(a, |cq|), Slot(a, n));
    forall k | r <= k < r + |cq|
      ensures cq[Slot(a, |cq|) := e][Slot(k, |cq|)] == if k == a then e else cq[Slot(k, |cq|)]
    {
      OneSlot(cq, a, e, r, k);
    }
  }

  lemma CompleteRegisters<T>(s: Qp<T>, answer: T)
    requires Shape(s) && Counters(s) && Registers(s) && Enabled(s, Complete(answer))
    ensures Counters(Apply(s, Complete(answer))) && Registers(Apply(s, Complete(answer)))
  {
    SlotSucc(|s.answers|, |s.sq|);
    SlotSucc(|s.answers|, |s.cq|);
    assert |s.answers| != |s.sent|;
  }

  lemma CompleteInv<T>(s: Qp<T>, answer: T)
    requires Inv(s) && Enabled(s, Complete(answer))
    ensures Inv(Apply(s, Complete(answer)))
  {
    var s' := Apply(s, Complete(answer));
    CompleteRegisters(s, answer);
    assert s'.sq == s.sq[Slot(|s.answers|, |s.sq|) := answer];
    CompleteSq(s.sq, s.sent, s.answers, |s.received|, answer, s.sender);
    assert s'.cq == s.cq[Slot(|s.answers|, |s.cq|) := Cqe(Phase(|s.answers|, |s.cq|), Slot(|s.answers|, |s.sq|))];
    CompleteCq(s.cq, |s.received|, |s.answers|, |s.sq|);
    assert s'.answers[..|s.received|] == s.answers[..|s.received|];
  }

  /** The phase comparison at drv/hisi_qm_udrv.c:575 is true exactly when a completion is unread. */
  lemma PhaseTestExact<T>(s: Qp<T>)
    requires Inv(s) && s.receiver.RecvIdle?
    ensures s.cq[s.cqHead].phase == s.cqcPhase <==> |s.received| < |s.answers|
    ensures |s.received| < |s.answers| ==> s.cq[s.cqHead].sqHead == Slot(|s.received|, |s.sq|)
  {
    assert s.cqHead == Slot(|s.received|, |s.cq|);
  }

  lemma TakeInv<T>(s: Qp<T>)
    requires Inv(s) && Enabled(s, Take)
    ensures Inv(Apply(s, Take))
  {
    var d, r := |s.cq|, |s.received|;
    SlotSucc(r, d);
    SlotLap(r, d);
    PhaseTestExact(s);
    assert Apply(s, Take).received == s.answers[..r + 1];
    assert CqWindow(s.cq, r + 1, |s.answers|, |s.sq|);
  }

  lemma ReceiverTailInv<T>(s: Qp<T>, step: Step<T>)
    requires Inv(s) && step in {SetHead, Sub} && Enabled(s, step)
    ensures Inv(Apply(s, step))
  {
    NarrowSum(|s.sent| - Released(s) - Uncounted(s), -1);
  }

  lemma StepInv<T>(s: Qp<T>, step: Step<T>)
    requires Inv(s) && Enabled(s, step)
    ensures Inv(Apply(s, step))
  {
    match step
    case Load(batch) => LoadInv(s, batch);
    case Fill => FillInv(s);
    case TxDisabled =>
    case Ring => RingInv(s);
    case Add => AddInv(s);
    case Complete(answer) => CompleteInv(s, answer);
    case Take => TakeInv(s);
    case SetHead => ReceiverTailInv(s, step);
    case Sub => ReceiverTailInv(s, step);
  }

  lemma {:induction false} RunInv<T>(s: Qp<T>, steps: seq<Step<T>>)
    requires Inv(s) && ValidRun(s, steps)
    ensures Inv(Exec(s, steps))
    decreases |steps|
  {
    if steps != [] {
      StepInv(s, steps[0]);
      RunInv(Apply(s, steps[0]), steps[1..]);
    }
  }

  lemma {:induction false} RunSnoc<T>(s: Qp<T>, steps: seq<Step<T>>, step: Step<T>)
    requires Shape(s) && ValidRun(s, steps) && Enabled(Exec(s, steps), step)
    ensures ValidRun(s, steps + [step])
    ensures Exec(s, steps + [step]) == Apply(Exec(s, steps), step)
    decreases |steps|
  {
    var all := steps + [step];
    if steps == [] {
      assert all[1..] == [];
    } else {
      assert all[1..] == steps[1..] + [step];
      RunSnoc(Apply(s, steps[0]), steps[1..], step);
    }
  }

  ghost predicate ReachedBy<T>(s0: Qp<T>, steps: seq<Step<T>>, s: Qp<T>) {
    Init(s0) && ValidRun(s0, steps) && Exec(s0, steps) == s
  }

  ghost predicate Reachable<T(!new)>(s: Qp<T>) {
    exists s0, steps :: ReachedBy(s0, steps, s)
  }

  lemma ReachableInv<T(!new)>(s: Qp<T>)
    requires Reachable(s)
    ensures Inv(s)
  {
    var s0, steps :| ReachedBy(s0, steps, s);
    InitInv(s0);
    RunInv(s0, steps);
  }

  lemma ReachableStep<T(!new)>(s: Qp<T>, step: Step<T>)
    requires Reachable(s) && Shape(s) && Enabled(s, step)
    ensures Reachable(Apply(s, step))
  {
    var s0, steps :| ReachedBy(s0, steps, s);
    RunSnoc(s0, steps, step);
    assert ReachedBy(s0, steps + [step], Apply(s, step));
  }

  // ---------- what every run guarantees ----------

  /** Received entries are the device's answers in order, each once, over any number of wraps. */
  lemma RingSafety<T>(s0: Qp<T>, steps: seq<Step<T>>)
    requires Init(s0) && ValidRun(s0, steps)
    ensures var s := Exec(s0, steps);
      && |s.received| <= |s.answers| <= |s.sent|
      && s.received == s.answers[..|s.received|]
      && 0 <= |s.sent| - Released(s) <= |s.sq| - 1
      && (forall k :: |s.answers| <= k < |s.sent| ==> s.sq[Slot(k, |s.sq|)] == s.sent[k])
      && (s.receiver.RecvIdle? ==>
            (s.cq[s.cqHead].phase == s.cqcPhase <==> |s.received| < |s.answers|))
  {
    InitInv(s0);
    RunInv(s0, steps);
    var s := Exec(s0, steps);
    if s.receiver.RecvIdle? {
      PhaseTestExact(s);
    }
  }

  /** In every run the device completes each entry exactly as it was submitted. */
  lemma DeviceReadsSubmission<T>(s0: Qp<T>, steps: seq<Step<T>>, answer: T)
    requires Init(s0) && ValidRun(s0, steps) && Enabled(Exec(s0, steps), Complete(answer))
    ensures var s := Exec(s0, steps);
      |s.answers| < |s.sent| && s.sq[s.devSqHead] == s.sent[|s.answers|]
  {
    InitInv(s0);
    RunInv(s0, steps);
    var s := Exec(s0, steps);
    assert s.devSqHead == Slot(|s.answers|, |s.sq|);
  }

  /** With the receiver idle and seeing no phase match, and the device idle, nothing is lost. */
  lemma DrainedMeansDelivered<T>(s0: Qp<T>, steps: seq<Step<T>>)
    requires Init(s0) && ValidRun(s0, steps)
    requires var s := Exec(s0, steps);
      s.receiver.RecvIdle? && s.devSqHead == s.doorbell && s.cq[s.cqHead].phase != s.cqcPhase
    ensures var s := Exec(s0, steps);
      |s.received| == |s.answers| == |s.sent|
  {
    InitInv(s0);
    RunInv(s0, steps);
    var s := Exec(s0, steps);
    PhaseTestExact(s);
    if |s.answers| < |s.sent| {
      SlotDistinct(|s.answers|, |s.sent|, |s.sq|);
    }
  }

  /**
  In every run, used_num is the true number in flight except between the doorbell and the
  addition.
  */
  lemma UsedNumExact<T>(s0: Qp<T>, steps: seq<Step<T>>)
    requires Init(s0) && ValidRun(s0, steps)
    ensures var s := Exec(s0, steps);
      && (s.usedNum == |s.sent| - Released(s) <==> !(s.sender.Rung? && s.sender.count > 0))
      && (!(s.sender.Rung? && s.sender.count > 0) ==> s.usedNum <= |s.sq| - 1)
  {
    InitInv(s0);
    RunInv(s0, steps);
    hide Exec, ValidRun, Init, Registers, CqWindow, PendingIntact, AnswersIntact;
  }

  /** A fresh two-slot queue, and the same queue just after one entry was rung in. */
  ghost function FreshPair(): Qp<int> {
    Qp([0, 0], [Cqe(false, 0), Cqe(false, 0)], 0, 0, true, 0, 0, 0, 0, true, SendIdle, RecvIdle, [], [], [])
  }

  ghost function RungPair(): Qp<int> {
    Qp([7, 0], [Cqe(false, 0), Cqe(false, 0)], 1, 0, true, 0, 1, 0, 0, true, Rung(1), RecvIdle, [7], [], [])
  }

  lemma RungPairDrains() returns (steps: seq<Step<int>>)
    ensures ValidRun(RungPair(), steps) && Exec(RungPair(), steps).usedNum == U16 - 1
  {
    var s4 := RungPair().(sq := [9, 0], cq := [Cqe(true, 0), Cqe(false, 0)],
                          devSqHead := 1, devCqTail := 1, answers := [9]);
    var s5 := s4.(received := [9], receiver := Taken(1));
    var s6 := s5.(cqHead := 1, receiver := HeadSet);
    var s7 := Apply(s6, Sub);
    steps := [Sub];
    assert ValidRun(s6, steps);
    steps := ConsRun(s5, SetHead, steps, s7);
    steps := ConsRun(s4, Take, steps, s7);
    assert Apply(RungPair(), Complete(9)) == s4;
    steps := ConsRun(RungPair(), Complete(9), steps, s7);
  }

  /** In that window a fast device and receiver can drive the 16-bit counter below zero. */
  lemma UsedNumCanWrap() returns (steps: seq<Step<int>>)
    ensures Init(FreshPair()) && ValidRun(FreshPair(), steps)
    ensures Exec(FreshPair(), steps).usedNum == U16 - 1 > |FreshPair().sq| - 1
  {
    steps := RungPairDrains();
    var end := Exec(RungPair(), steps);
    var s1 := FreshPair().(sender := Loaded([7]));
    var s2 := FreshPair().(sq := [7, 0], sender := Filled([7]));
    assert Apply(s2, Ring) == RungPair();
    steps := ConsRun(s2, Ring, steps, end);
    assert FillSqe([0, 0], 0, [7]) == [7, 0];
    steps := ConsRun(s1, Fill, steps, end);
    steps := ConsRun(FreshPair(), Load([7]), steps, end);
  }

  lemma ConsRun<T>(s: Qp<T>, step: Step<T>, rest: seq<Step<T>>, end: Qp<T>) returns (steps: seq<Step<T>>)
    requires Shape(s) && Enabled(s, step)
    requires ValidRun(Apply(s, step), rest) && Exec(Apply(s, step), rest) == end
    ensures steps == [step] + rest && ValidRun(s, steps) && Exec(s, steps) == end
  {
    steps := [step] + rest;
    assert steps[1..] == rest;
  }
}
