/**
The reference protocol of a block pool in wd_mempool.c: wd_block_alloc and
wd_block_free by any number of threads, and one wd_blockpool_destroy that waits
for the reference count to drain.  Each atomic access and each spin-locked region
is one step; a run is any interleaving.
*/
module BlockPoolRef {

  /** The address of a block. */
  type Block = int

  /** Where a thread stands; threads not in the map are outside both calls. */
  datatype Pc =
    | Trying                // wd_atomic_test_add, about to load ref
    | Loaded(c: nat)        // loaded c, about to test it and compare-and-swap
    | Entered               // reference taken, about to lock and pop
    | GaveUp                // stack was empty, about to drop the reference
    | Freeing(b: Block)         // about to lock and push b
    | Leaving               // pushed, about to drop the reference

  datatype Owner = Alive | Waiting | Released

  /** held: blocks in the hands of clients; returning: blocks passed to wd_block_free, not pushed yet. */
  datatype State = State(ref: nat, stack: seq<Block>, depth: nat, pcs: map<nat, Pc>, owner: Owner,
                            held: multiset<Block>, returning: multiset<Block>)

  datatype Step =
    | CallAlloc(t: nat) | LoadRef(t: nat) | SeeZero(t: nat) | Cas(t: nat) | CasFails(t: nat)
    | Pop(t: nat) | FindEmpty(t: nat) | Drop(t: nat)
    | CallFree(t: nat, b: Block) | Push(t: nat) | FindFull(t: nat)
    | DestroyBegins | DestroySeesZero

  predicate Enabled(s: State, step: Step) {
    match step
    case CallAlloc(t) => t !in s.pcs
    case LoadRef(t) => t in s.pcs && s.pcs[t].Trying?
    case SeeZero(t) => t in s.pcs && s.pcs[t].Loaded? && s.pcs[t].c == 0
    case Cas(t) => t in s.pcs && s.pcs[t].Loaded? && s.pcs[t].c != 0 && s.ref == s.pcs[t].c
    case CasFails(t) => t in s.pcs && s.pcs[t].Loaded? && s.pcs[t].c != 0
    case Pop(t) => t in s.pcs && s.pcs[t].Entered? && |s.stack| > 0
    case FindEmpty(t) => t in s.pcs && s.pcs[t].Entered? && |s.stack| == 0
    case Drop(t) => t in s.pcs && (s.pcs[t].GaveUp? || s.pcs[t].Leaving?) && s.ref > 0
    case CallFree(t, b) => t !in s.pcs && b in s.held
    case Push(t) => t in s.pcs && s.pcs[t].Freeing? && |s.stack| < s.depth
    case FindFull(t) => t in s.pcs && s.pcs[t].Freeing? && |s.stack| >= s.depth
    case DestroyBegins => s.owner.Alive? && s.ref > 0
    case DestroySeesZero => s.owner.Waiting? && s.ref == 0
  }

  function Apply(s: State, step: Step): (s': State)
    requires Enabled(s, step)
  {
    match step
    case CallAlloc(t) => s.(pcs := s.pcs[t := Trying])
    case LoadRef(t) => s.(pcs := s.pcs[t := Loaded(s.ref)])
    case SeeZero(t) => s.(pcs := s.pcs - {t})
    case Cas(t) => s.(ref := s.ref + 1, pcs := s.pcs[t := Entered])
    case CasFails(t) => s.(pcs := s.pcs[t := Trying])
    case Pop(t) =>
      var top := |s.stack| - 1;
      s.(stack := s.stack[..top], held := s.held + multiset{s.stack[top]}, pcs := s.pcs - {t})
    case FindEmpty(t) => s.(pcs := s.pcs[t := GaveUp])
    case Drop(t) => s.(ref := s.ref - 1, pcs := s.pcs - {t})
    case CallFree(t, b) =>
      s.(held := s.held - multiset{b}, returning := s.returning + multiset{b}, pcs := s.pcs[t := Freeing(b)])
    case Push(t) =>
      s.(stack := s.stack + [s.pcs[t].b], returning := s.returning - multiset{s.pcs[t].b},
         pcs := s.pcs[t := Leaving])
    case FindFull(t) => s.(pcs := s.pcs - {t})
    case DestroyBegins => s.(ref := s.ref - 1, owner := Waiting)
    case DestroySeesZero => s.(owner := Released)
  }

  /** wd_blockpool_create: every block on the stack, one reference for the owner. */
  ghost predicate Init(s: State) {
    && s.ref == 1 && |s.stack| == s.depth && s.pcs == map[] && s.owner.Alive?
    && s.held == multiset{} && s.returning == multiset{}
    && forall b :: multiset(s.stack)[b] <= 1
  }

  ghost predicate ValidRun(s: State, steps: seq<Step>)
    decreases |steps|
  {
    steps == [] || (Enabled(s, steps[0]) && ValidRun(Apply(s, steps[0]), steps[1..]))
  }

  ghost function Exec(s: State, steps: seq<Step>): State
    requires ValidRun(s, steps)
    decreases |steps|
  {
    if steps == [] then s else Exec(Apply(s, steps[0]), steps[1..])
  }

  // ---------- invariant ----------

  /** Threads past the increment that have not dropped their reference or passed it to a block. */
  ghost function Counted(pcs: map<nat, Pc>): set<nat> {
    set t | t in pcs && HasRef(pcs[t])
  }

  predicate HasRef(pc: Pc) {
    pc.Entered? || pc.GaveUp? || pc.Freeing? || pc.Leaving?
  }

  ghost function Pushing(pcs: map<nat, Pc>): set<nat> {
    set t | t in pcs && pcs[t].Freeing?
  }

  /** Every block is in one place: on the stack, with a client, or on its way back. */
  ghost predicate Conserved(s: State, all: multiset<Block>) {
    && multiset(s.stack) + s.held + s.returning == all
    && (forall b :: all[b] <= 1)
    && |all| == s.depth
    && |s.returning| == |Pushing(s.pcs)|
    && (forall t :: t in s.pcs && s.pcs[t].Freeing? ==> s.pcs[t].b in s.returning)
    && (forall t, u :: t in s.pcs && u in s.pcs && t != u && s.pcs[t].Freeing? && s.pcs[u].Freeing? ==>
          s.pcs[t].b != s.pcs[u].b)
  }

  /** The count is the owner's share plus held blocks plus threads holding a reference. */
  ghost predicate RefExact(s: State) {
    s.ref == (if s.owner.Alive? then 1 else 0) + |s.held| + |Counted(s.pcs)|
  }

  ghost predicate Inv(s: State, all: multiset<Block>) {
    && Conserved(s, all) && RefExact(s)
    && (s.owner.Released? ==> s.ref == 0)
  }

  lemma InitInv(s: State)
    requires Init(s)
    ensures Inv(s, multiset(s.stack))
  {
    assert Counted(s.pcs) == {} && Pushing(s.pcs) == {};
  }

  function One(b: bool): nat { if b then 1 else 0 }

  lemma CardMove(a: set<nat>, b: set<nat>, t: nat)
    requires forall u :: u != t ==> (u in a <==> u in b)
    ensures |b| == |a| - One(t in a) + One(t in b)
  {
    assert a - {t} == b - {t};
    assert |a - {t}| == |a| - One(t in a);
    assert |b - {t}| == |b| - One(t in b);
  }

  /** How the two thread counts change when thread t moves to pc, or goes outside. */
  lemma MoveTo(pcs: map<nat, Pc>, t: nat, pc: Pc)
    ensures |Counted(pcs[t := pc])| == |Counted(pcs)| - One(t in pcs && HasRef(pcs[t])) + One(HasRef(pc))
    ensures |Pushing(pcs[t := pc])| == |Pushing(pcs)| - One(t in pcs && pcs[t].Freeing?) + One(pc.Freeing?)
  {
    CardMove(Counted(pcs), Counted(pcs[t := pc]), t);
    CardMove(Pushing(pcs), Pushing(pcs[t := pc]), t);
  }

  lemma MoveOut(pcs: map<nat, Pc>, t: nat)
    ensures |Counted(pcs - {t})| == |Counted(pcs)| - One(t in pcs && HasRef(pcs[t]))
    ensures |Pushing(pcs - {t})| == |Pushing(pcs)| - One(t in pcs && pcs[t].Freeing?)
  {
    CardMove(Counted(pcs), Counted(pcs - {t}), t);
    CardMove(Pushing(pcs), Pushing(pcs - {t}), t);
  }

  lemma CountStep(s: State, step: Step)
    requires Enabled(s, step)
    ensures var s' := Apply(s, step);
      match step
      case CallFree(t, _) => |Counted(s'.pcs)| == |Counted(s.pcs)| + 1 && |Pushing(s'.pcs)| == |Pushing(s.pcs)| + 1
      case Push(_) => |Counted(s'.pcs)| == |Counted(s.pcs)| && |Pushing(s'.pcs)| == |Pushing(s.pcs)| - 1
      case Cas(_) => |Counted(s'.pcs)| == |Counted(s.pcs)| + 1 && |Pushing(s'.pcs)| == |Pushing(s.pcs)|
      case Pop(_) => |Counted(s'.pcs)| == |Counted(s.pcs)| - 1 && |Pushing(s'.pcs)| == |Pushing(s.pcs)|
      case Drop(_) => |Counted(s'.pcs)| == |Counted(s.pcs)| - 1 && |Pushing(s'.pcs)| == |Pushing(s.pcs)|
      case FindFull(_) => true
      case _ => |Counted(s'.pcs)| == |Counted(s.pcs)| && |Pushing(s'.pcs)| == |Pushing(s.pcs)|
  {
    hide Counted, Pushing;
    match step
    case CallAlloc(t) => MoveTo(s.pcs, t, Trying);
    case LoadRef(t) => MoveTo(s.pcs, t, Loaded(s.ref));
    case SeeZero(t) => MoveOut(s.pcs, t);
    case Cas(t) => MoveTo(s.pcs, t, Entered);
    case CasFails(t) => MoveTo(s.pcs, t, Trying);
    case Pop(t) => MoveOut(s.pcs, t);
    case FindEmpty(t) => MoveTo(s.pcs, t, GaveUp);
    case Drop(t) => MoveOut(s.pcs, t);
    case CallFree(t, b) => MoveTo(s.pcs, t, Freeing(b));
    case Push(t) => MoveTo(s.pcs, t, Leaving);
    case FindFull(t) =>
    case DestroyBegins =>
    case DestroySeesZero =>
  }

  /** A thread about to push always finds room: the branch that keeps the reference is dead. */
  lemma NeverFull(s: State, t: nat, all: multiset<Block>)
    requires Conserved(s, all) && t in s.pcs && s.pcs[t].Freeing?
    ensures |s.stack| < s.depth
  {
    assert t in Pushing(s.pcs);
    assert |multiset(s.stack) + s.held + s.returning| == |s.stack| + |s.held| + |s.returning|;
  }

  lemma RefStep(s: State, step: Step, all: multiset<Block>)
    requires Inv(s, all) && Enabled(s, step)
    ensures RefExact(Apply(s, step))
  {
    hide Counted, Pushing, Conserved;
    CountStep(s, step);
    if step.FindFull? { NeverFull(s, step.t, all); }
  }

  lemma PopConserves(s: State, t: nat, all: multiset<Block>)
    requires Conserved(s, all) && Enabled(s, Pop(t))
    ensures Conserved(Apply(s, Pop(t)), all)
  {
    hide Counted, Pushing;
    CountStep(s, Pop(t));
    assert s.stack == s.stack[..|s.stack| - 1] + [s.stack[|s.stack| - 1]];
  }

  lemma CallFreeConserves(s: State, t: nat, b: Block, all: multiset<Block>)
    requires Conserved(s, all) && Enabled(s, CallFree(t, b))
    ensures Conserved(Apply(s, CallFree(t, b)), all)
  {
    hide Counted, Pushing;
    CountStep(s, CallFree(t, b));
    assert all[b] == multiset(s.stack)[b] + s.held[b] + s.returning[b];
  }

  lemma PushConserves(s: State, t: nat, all: multiset<Block>)
    requires Conserved(s, all) && Enabled(s, Push(t))
    ensures Conserved(Apply(s, Push(t)), all)
  {
    hide Counted, Pushing;
    CountStep(s, Push(t));
    assert s.pcs[t].b in s.returning;
  }

  lemma ConservedStep(s: State, step: Step, all: multiset<Block>)
    requires Conserved(s, all) && Enabled(s, step)
    ensures Conserved(Apply(s, step), all)
  {
    hide Counted, Pushing;
    match step
    case Pop(t) => PopConserves(s, t, all);
    case CallFree(t, b) => CallFreeConserves(s, t, b, all);
    case Push(t) => PushConserves(s, t, all);
    case FindFull(t) => NeverFull(s, t, all);
    case _ => CountStep(s, step);
  }

  lemma StepInv(s: State, step: Step, all: multiset<Block>)
    requires Inv(s, all) && Enabled(s, step)
    ensures Inv(Apply(s, step), all)
  {
    ConservedStep(s, step, all);
    RefStep(s, step, all);
    if s.owner.Released? { NobodyIn(s, all); }
  }

  lemma {:induction false} RunInv(s: State, steps: seq<Step>, all: multiset<Block>)
    requires Inv(s, all) && ValidRun(s, steps)
    ensures Inv(Exec(s, steps), all)
    decreases |steps|
  {
    if steps != [] {
      StepInv(s, steps[0], all);
      RunInv(Apply(s, steps[0]), steps[1..], all);
    }
  }

  /** A zero count with the owner gone means nobody is left. */
  lemma NobodyIn(s: State, all: multiset<Block>)
    requires Inv(s, all) && s.ref == 0
    ensures !s.owner.Alive? && s.held == multiset{} && s.returning == multiset{}
    ensures Counted(s.pcs) == {}
    ensures multiset(s.stack) == all
  {
    assert Pushing(s.pcs) <= Counted(s.pcs);
    assert multiset(s.stack) + s.held + s.returning == multiset(s.stack);
  }

  // ---------- what every run guarantees ----------

  /**
  In every run the count is exact and no block is in two places; when destroy
  leaves its wait loop every block is back on the stack and no thread that took a
  reference is still inside alloc or free.
  */
  lemma PoolSafety(s0: State, steps: seq<Step>)
    requires Init(s0) && ValidRun(s0, steps)
    ensures var s := Exec(s0, steps);
      && s.ref == (if s.owner.Alive? then 1 else 0) + |s.held| + |Counted(s.pcs)|
      && multiset(s.stack) + s.held + s.returning == multiset(s0.stack)
      && (forall b :: s.held[b] <= 1)
      && (s.owner.Released? ==> multiset(s.stack) == multiset(s0.stack) && Counted(s.pcs) == {})
  {
    var all := multiset(s0.stack);
    InitInv(s0);
    RunInv(s0, steps, all);
    var s := Exec(s0, steps);
    forall b ensures s.held[b] <= 1 {
      assert all[b] == multiset(s.stack)[b] + s.held[b] + s.returning[b];
    }
    if s.owner.Released? { NobodyIn(s, all); }
  }

  /** After release the count stays zero and no allocation succeeds, whatever happens next. */
  lemma {:induction false} ReleasedForever(s: State, steps: seq<Step>, all: multiset<Block>)
    requires Inv(s, all) && s.owner.Released? && ValidRun(s, steps)
    ensures var s' := Exec(s, steps);
      s'.owner.Released? && s'.ref == 0 && s'.held == multiset{} && Counted(s'.pcs) == {} && s'.stack == s.stack
    decreases |steps|
  {
    NobodyIn(s, all);
    if steps != [] {
      StepInv(s, steps[0], all);
      NoCountedStep(s, steps[0]);
      ReleasedForever(Apply(s, steps[0]), steps[1..], all);
    }
  }

  lemma NoCountedStep(s: State, step: Step)
    requires Counted(s.pcs) == {} && s.ref == 0 && s.owner.Released? && s.held == multiset{} && Enabled(s, step)
    ensures Apply(s, step).owner.Released? && Apply(s, step).stack == s.stack
  {
    forall t | t in s.pcs ensures !HasRef(s.pcs[t]) {
      assert t !in Counted(s.pcs);
    }
  }

  /**
  A thread that has called alloc but not yet made its increment is not counted, so
  destroy can release the pool under it: thread 7 loads 1, then the owner drains and
  releases; the thread's next access is to freed memory.
  */
  lemma UncountedThreadInside(b: Block) returns (steps: seq<Step>)
    ensures ValidRun(OneBlock(b), steps)
    ensures Exec(OneBlock(b), steps).owner.Released? && Exec(OneBlock(b), steps).pcs == map[7 := Loaded(1)]
  {
    var s0 := OneBlock(b);
    var s1 := Apply(s0, CallAlloc(7));
    var s2 := Apply(s1, LoadRef(7));
    var s3 := Apply(s2, DestroyBegins);
    var s4 := Apply(s3, DestroySeesZero);
    assert s4.pcs == map[7 := Loaded(1)];
    steps := [CallAlloc(7), LoadRef(7), DestroyBegins, DestroySeesZero];
    assert steps[1..] == [LoadRef(7), DestroyBegins, DestroySeesZero];
    assert steps[1..][1..] == [DestroyBegins, DestroySeesZero];
    assert steps[1..][1..][1..] == [DestroySeesZero];
    assert ValidRun(s3, [DestroySeesZero]) && Exec(s3, [DestroySeesZero]) == s4;
    assert ValidRun(s2, steps[1..][1..]) && Exec(s2, steps[1..][1..]) == s4;
    assert ValidRun(s1, steps[1..]) && Exec(s1, steps[1..]) == s4;
  }

  ghost function OneBlock(b: Block): (s: State)
    ensures Init(s)
  {
    State(1, [b], 1, map[], Alive, multiset{}, multiset{})
  }

  /** At release, every thread still inside a call is before its increment. */
  lemma InsideAtRelease(s: State, all: multiset<Block>)
    requires Inv(s, all) && s.owner.Released?
    ensures forall t :: t in s.pcs ==> s.pcs[t].Trying? || s.pcs[t].Loaded?
  {
    NobodyIn(s, all);
    forall t | t in s.pcs ensures s.pcs[t].Trying? || s.pcs[t].Loaded? {
      assert t !in Counted(s.pcs);
    }
  }

  // ---------- when nobody is inside at release ----------

  /** Every thread inside a call has its reference. */
  ghost predicate AllCounted(pcs: map<nat, Pc>) {
    forall t :: t in pcs ==> HasRef(pcs[t])
  }

  /** No allocation begins in this part of the run. */
  predicate NoCalls(steps: seq<Step>) {
    forall i :: 0 <= i < |steps| ==> !steps[i].CallAlloc?
  }

  /** Whatever follows without a new allocation, nobody is inside a call when destroy finishes. */
  ghost predicate SafeToDestroy(s: State) {
    forall steps :: NoCalls(steps) && ValidRun(s, steps) && Exec(s, steps).owner.Released? ==>
      Exec(s, steps).pcs == map[]
  }

  lemma AllCountedStep(s: State, step: Step)
    requires AllCounted(s.pcs) && Enabled(s, step) && !step.CallAlloc?
    ensures AllCounted(Apply(s, step).pcs)
  {
    var pcs' := Apply(s, step).pcs;
    if step.DestroyBegins? || step.DestroySeesZero? {
      assert pcs' == s.pcs;
    } else {
      assert forall u :: u in pcs' && u != step.t ==> u in s.pcs && pcs'[u] == s.pcs[u];
      assert step.t in pcs' ==> HasRef(pcs'[step.t]);
    }
  }

  lemma {:induction false} AllCountedRun(s: State, steps: seq<Step>)
    requires AllCounted(s.pcs) && ValidRun(s, steps) && NoCalls(steps)
    ensures AllCounted(Exec(s, steps).pcs)
    decreases |steps|
  {
    if steps != [] {
      AllCountedStep(s, steps[0]);
      AllCountedRun(Apply(s, steps[0]), steps[1..]);
    }
  }

  /** Threads at one stage of a call that holds a reference. */
  ghost function EnteredSet(pcs: map<nat, Pc>): set<nat> {
    set t | t in pcs && pcs[t].Entered?
  }

  ghost function LastSet(pcs: map<nat, Pc>): set<nat> {
    set t | t in pcs && (pcs[t].GaveUp? || pcs[t].Leaving?)
  }

  /** Steps it takes to bring every reference back. */
  ghost function ToGo(s: State): nat {
    4 * |EnteredSet(s.pcs)| + |LastSet(s.pcs)| + 2 * |Pushing(s.pcs)| + 3 * |s.held|
  }

  lemma StagesMove(pcs: map<nat, Pc>, pcs': map<nat, Pc>, t: nat)
    requires forall u :: u != t ==> (u in pcs <==> u in pcs') && (u in pcs ==> pcs[u] == pcs'[u])
    ensures |EnteredSet(pcs')| == |EnteredSet(pcs)| - One(t in EnteredSet(pcs)) + One(t in EnteredSet(pcs'))
    ensures |LastSet(pcs')| == |LastSet(pcs)| - One(t in LastSet(pcs)) + One(t in LastSet(pcs'))
    ensures |Pushing(pcs')| == |Pushing(pcs)| - One(t in Pushing(pcs)) + One(t in Pushing(pcs'))
  {
    CardMove(EnteredSet(pcs), EnteredSet(pcs'), t);
    CardMove(LastSet(pcs), LastSet(pcs'), t);
    CardMove(Pushing(pcs), Pushing(pcs'), t);
  }

  /** A step of thread t towards that. */
  lemma Forward(s: State, all: multiset<Block>, t: nat) returns (step: Step)
    requires Inv(s, all) && t in Counted(s.pcs)
    ensures Enabled(s, step) && !step.CallAlloc? && !step.DestroyBegins? && !step.DestroySeesZero?
    ensures ToGo(Apply(s, step)) < ToGo(s) && Apply(s, step).owner == s.owner
    ensures forall u :: u != t && u in s.pcs ==> u in Apply(s, step).pcs && Apply(s, step).pcs[u] == s.pcs[u]
  {
    hide Conserved;
    assert Counted(s.pcs) != {};
    match s.pcs[t] {
      case Entered => step := if |s.stack| > 0 then Pop(t) else FindEmpty(t);
      case Freeing(b) =>
        NeverFull(s, t, all);
        step := Push(t);
      case _ => step := Drop(t);
    }
    StagesMove(s.pcs, Apply(s, step).pcs, t);
  }

  /** A number that names no thread inside a call. */
  lemma FreshThread(pcs: map<nat, Pc>) returns (t: nat)
    ensures t !in pcs
  {
    t := AboveAll(pcs.Keys);
  }

  lemma {:induction false} AboveAll(ts: set<nat>) returns (t: nat)
    ensures forall u :: u in ts ==> u < t
    decreases |ts|
  {
    if ts == {} {
      t := 0;
    } else {
      var u :| u in ts;
      t := AboveAll(ts - {u});
      t := if u < t then t else u + 1;
      assert forall x :: x in ts ==> x == u || x in ts - {u};
    }
  }

  /** Freeing a held block by a new thread. */
  lemma FreeHeld(s: State, all: multiset<Block>, b: Block) returns (step: Step)
    requires Inv(s, all) && b in s.held
    ensures Enabled(s, step) && step.CallFree? && ToGo(Apply(s, step)) < ToGo(s) && Apply(s, step).owner == s.owner
    ensures forall u :: u in s.pcs ==> u in Apply(s, step).pcs && Apply(s, step).pcs[u] == s.pcs[u]
  {
    var t := FreshThread(s.pcs);
    step := CallFree(t, b);
    StagesMove(s.pcs, Apply(s, step).pcs, t);
  }

  /** From a waiting owner there is a run that brings every reference back and leaves thread u where it is. */
  lemma {:induction false} Drains(s: State, all: multiset<Block>, u: nat) returns (steps: seq<Step>)
    requires Inv(s, all) && s.owner.Waiting? && u in s.pcs && !HasRef(s.pcs[u])
    ensures ValidRun(s, steps) && NoCalls(steps) && Exec(s, steps).owner.Released? && u in Exec(s, steps).pcs
    decreases ToGo(s)
  {
    hide *;
    if s.ref == 0 {
      steps := [DestroySeesZero];
      ReleaseNow(s);
    } else {
      var step := SomeForward(s, all, u);
      StepInv(s, step, all);
      var rest := Drains(Apply(s, step), all, u);
      steps := [step] + rest;
      Prepend(s, step, rest);
    }
  }

  lemma ReleaseNow(s: State)
    requires s.owner.Waiting? && s.ref == 0
    ensures var steps := [DestroySeesZero];
      ValidRun(s, steps) && NoCalls(steps) && Exec(s, steps).owner.Released? && Exec(s, steps).pcs == s.pcs
  {
    assert [DestroySeesZero][1..] == [];
  }

  lemma Prepend(s: State, step: Step, rest: seq<Step>)
    requires Enabled(s, step) && !step.CallAlloc? && ValidRun(Apply(s, step), rest) && NoCalls(rest)
    ensures var steps := [step] + rest;
      ValidRun(s, steps) && NoCalls(steps) && Exec(s, steps) == Exec(Apply(s, step), rest)
  {
    assert ([step] + rest)[1..] == rest;
    hide Apply, Enabled;
  }

  lemma HoldsSome(held: multiset<Block>)
    requires |held| > 0
    ensures exists b :: b in held
  {
    assert (forall b :: b !in held) ==> held == multiset{};
  }

  lemma SomeForward(s: State, all: multiset<Block>, u: nat) returns (step: Step)
    requires Inv(s, all) && s.owner.Waiting? && s.ref > 0 && u in s.pcs && !HasRef(s.pcs[u])
    ensures Enabled(s, step) && !step.CallAlloc? && ToGo(Apply(s, step)) < ToGo(s)
    ensures Apply(s, step).owner.Waiting? && u in Apply(s, step).pcs && Apply(s, step).pcs[u] == s.pcs[u]
  {
    hide Conserved, ToGo, Enabled, Apply;
    if t :| t in Counted(s.pcs) {
      step := Forward(s, all, t);
    } else {
      assert Counted(s.pcs) == {};
      HoldsSome(s.held);
      var b :| b in s.held;
      step := FreeHeld(s, all, b);
    }
  }

  /**
  A pool whose owner has begun to destroy it is released with nobody inside, whatever
  follows without a new allocation, if and only if every thread inside a call at that
  point has made its increment.
  */
  lemma SafeToDestroyIff(s: State, all: multiset<Block>)
    requires Inv(s, all) && s.owner.Waiting?
    ensures SafeToDestroy(s) <==> AllCounted(s.pcs)
  {
    if AllCounted(s.pcs) {
      forall steps | NoCalls(steps) && ValidRun(s, steps) && Exec(s, steps).owner.Released?
        ensures Exec(s, steps).pcs == map[] {
        AllCountedRun(s, steps);
        RunInv(s, steps, all);
        InsideAtRelease(Exec(s, steps), all);
        NobodyLeft(Exec(s, steps).pcs);
      }
    } else {
      var u :| u in s.pcs && !HasRef(s.pcs[u]);
      var steps := Drains(s, all, u);
    }
  }

  lemma NobodyLeft(pcs: map<nat, Pc>)
    requires AllCounted(pcs) && forall t :: t in pcs ==> pcs[t].Trying? || pcs[t].Loaded?
    ensures pcs == map[]
  {
    assert forall t :: t in pcs ==> HasRef(pcs[t]) && !HasRef(pcs[t]);
    assert pcs.Keys == {};
  }
}
