/**
Registration of the internal contexts into the scheduler (wd_alg_sched_instance of
wd_util.c) and the check a drawn context must pass (wd_check_ctx).
*/
module CtxRegistry {
  import opened Sequences
  import opened SegmentCursor
  import opened SchedTable

  /** The domain a context is registered under: region 0 and the normalised type. */
  function CtxKey(c: Ctx): Key {
    Key(0, c.mode, c.opType, Prop(c.ctxType))
  }

  /** Indices below n whose context belongs to the key, ascending. */
  ghost function Select(ctxs: seq<Ctx>, n: nat, key: Key): (r: seq<nat>)
    requires n <= |ctxs|
  {
    if n == 0 then []
    else Select(ctxs, n - 1, key) + (if CtxKey(ctxs[n - 1]) == key then [n - 1] else [])
  }

  ghost predicate ProgressOf(m0: Domains, m: Domains, ctxs: seq<Ctx>, n: nat, key: Key)
    requires MapOk(m0) && MapOk(m) && n <= |ctxs|
  {
    && Listed(m, key) == Listed(m0, key) + Select(ctxs, n, key)
    && (Usable(m, key) <==> Usable(m0, key) || Select(ctxs, n, key) != [])
  }

  /** m holds what m0 held, followed by the first n contexts, each under its own key. */
  ghost predicate Progress(m0: Domains, m: Domains, ctxs: seq<Ctx>, n: nat)
    requires MapOk(m0) && MapOk(m) && n <= |ctxs|
  {
    forall k :: ProgressOf(m0, m, ctxs, n, k)
  }

  lemma {:induction false} SelectRun(ctxs: seq<Ctx>, b: nat, e: nat, key: Key, k: Key)
    requires b < e <= |ctxs| && forall i :: b <= i < e ==> CtxKey(ctxs[i]) == key
    ensures Select(ctxs, e, k) == Select(ctxs, b, k) + if k == key then Indices(Segment(b, e - 1)) else []
    decreases e - b
  {
    assert CtxKey(ctxs[e - 1]) == key;
    if b == e - 1 {
      assert Indices(Segment(b, b)) == [b];
    } else {
      SelectRun(ctxs, b, e - 1, key, k);
      assert Indices(Segment(b, e - 1)) == Indices(Segment(b, e - 2)) + [e - 1];
      if k == key {
        assert Select(ctxs, e, k) == Select(ctxs, b, k) + Indices(Segment(b, e - 2)) + [e - 1];
      }
    }
  }

  /** What a registered run changes for each key. */
  lemma RunEffect(m: Domains, key: Key, b: nat, e: nat, k: Key)
    requires MapOk(m) && b < e
    ensures var m' := WithSegment(Inserted(m, key), key, b, e - 1);
      && Listed(m', k) == Listed(m, k) + (if k == key then Indices(Segment(b, e - 1)) else [])
      && (Usable(m', k) <==> Usable(m, k) || k == key)
  {
    hide Indices, Flatten, DomainOk, MapOk;
    if k != key {
      assert Listed(m, k) + [] == Listed(m, k);
    }
  }

  lemma RunRegisteredOf(m0: Domains, m: Domains, ctxs: seq<Ctx>, b: nat, e: nat, key: Key, k: Key)
    requires MapOk(m0) && MapOk(m) && b < e <= |ctxs| && ProgressOf(m0, m, ctxs, b, k)
    requires forall i :: b <= i < e ==> CtxKey(ctxs[i]) == key
    ensures ProgressOf(m0, WithSegment(Inserted(m, key), key, b, e - 1), ctxs, e, k)
  {
    RunEffect(m, key, b, e, k);
    SelectRun(ctxs, b, e, key, k);
    assert |Indices(Segment(b, e - 1))| > 0;
    hide Select, Indices, Listed, Usable, MapOk, WithSegment, Inserted, CtxKey;
    var run := if k == key then Indices(Segment(b, e - 1)) else [];
    Regroup([], Listed(m0, k), Select(ctxs, b, k), run);
    assert [] + Listed(m0, k) == Listed(m0, k);
  }

  lemma RunRegistered(m0: Domains, m: Domains, ctxs: seq<Ctx>, b: nat, e: nat, key: Key)
    requires MapOk(m0) && MapOk(m) && b < e <= |ctxs| && Progress(m0, m, ctxs, b)
    requires forall i :: b <= i < e ==> CtxKey(ctxs[i]) == key
    ensures Progress(m0, WithSegment(Inserted(m, key), key, b, e - 1), ctxs, e)
  {
    hide ProgressOf, MapOk, DomainOk, AddSegment;
    var m' := WithSegment(Inserted(m, key), key, b, e - 1);
    forall k ensures ProgressOf(m0, m', ctxs, e, k) {
      RunRegisteredOf(m0, m, ctxs, b, e, key, k);
    }
  }

  lemma InsertRegistersNothing(m0: Domains, m: Domains, ctxs: seq<Ctx>, n: nat, key: Key)
    requires MapOk(m0) && MapOk(m) && n <= |ctxs| && Progress(m0, m, ctxs, n)
    ensures Progress(m0, Inserted(m, key), ctxs, n)
  {
    hide Select, MapOk, DomainOk, Flatten;
    var m' := Inserted(m, key);
    forall k ensures ProgressOf(m0, m', ctxs, n, k) {
      assert ProgressOf(m0, m, ctxs, n, k);
      assert Listed(m', k) == Listed(m, k);
    }
  }

  /** The scheduler takes contexts of this kind: everything is registered in region 0. */
  predicate CtxOk(c: Ctx, regions: nat, types: nat) {
    0 < regions && c.opType < types && c.mode < MODES
  }

  /**
  wd_alg_sched_instance: one segment for each run of contexts of the same mode, op type
  and type; an allocation may fail at any point. done counts the contexts registered.
  */
  method Register(t: Table, ctxs: seq<Ctx>) returns (code: Code, done: nat)
    requires t.Valid()
    modifies t`m, t`count, t.buckets
    ensures t.Valid() && MapOk(old(t.m)) && done <= |ctxs|
    ensures Progress(old(t.m), t.m, ctxs, done)
    ensures code.Success? ==> done == |ctxs| && forall j :: 0 <= j < |ctxs| ==> CtxOk(ctxs[j], t.regions, t.types)
    ensures code.Invalid? ==> done < |ctxs| && !CtxOk(ctxs[done], t.regions, t.types)
  {
    hide Select;
    var i := 0;
    ghost var m0 := t.m;
    NothingYet(m0, ctxs);
    done := 0;
    while i < |ctxs|
      invariant t.Valid() && MapOk(m0) && i == done <= |ctxs| && Progress(m0, t.m, ctxs, i)
      invariant forall j :: 0 <= j < i ==> CtxOk(ctxs[j], t.regions, t.types)
    {
      hide t.Valid, Progress, MapOk;
      var c := ctxs[i];
      while i < |ctxs| && ctxs[i].mode == c.mode && ctxs[i].opType == c.opType && ctxs[i].ctxType == c.ctxType
        invariant done <= i <= |ctxs| && (i == done ==> i < |ctxs| && ctxs[i] == c)
        invariant forall j :: done <= j < i ==> ctxs[j] == c
        decreases |ctxs| - i
      {
        i := i + 1;
      }
      code := RegisterRun(t, m0, ctxs, done, i, c);
      if !code.Success? {
        return;
      }
      done := i;
    }
    code := Success;
  }

  /** The run b..e of contexts like c becomes one segment of c's domain. */
  method RegisterRun(t: Table, ghost m0: Domains, ctxs: seq<Ctx>, b: nat, e: nat, c: Ctx) returns (code: Code)
    requires t.Valid() && MapOk(m0)
    requires b < e <= |ctxs| && Progress(m0, t.m, ctxs, b) && forall j :: b <= j < e ==> ctxs[j] == c
    modifies t`m, t`count, t.buckets
    ensures t.Valid() && Progress(m0, t.m, ctxs, if code.Success? then e else b)
    ensures code.Invalid? <==> !CtxOk(c, t.regions, t.types)
  {
    hide *;
    ghost var m, key := t.m, CtxKey(c);
    var p := Params(0, c.opType, c.mode, b, e - 1, c.ctxType);
    SameKey(c, p, t.regions, t.types);
    RunRegistered(m0, m, ctxs, b, e, key);
    InsertRegistersNothing(m0, m, ctxs, b, key);
    var nodeOk: bool, segOk: bool := *, *;
    code := t.RrInstance(p, nodeOk, segOk);
  }

  lemma SameKey(c: Ctx, p: Params, regions: nat, types: nat)
    requires p.numaId == 0 && p.begin <= p.end && p.opType == c.opType && p.mode == c.mode && p.prop == c.ctxType
    ensures ParamKey(p) == CtxKey(c) && (ParamsOk(p, regions, types) <==> CtxOk(c, regions, types))
  {
  }

  lemma NothingYet(m: Domains, ctxs: seq<Ctx>)
    requires MapOk(m)
    ensures Progress(m, m, ctxs, 0)
  {
    hide MapOk, DomainOk, Flatten;
    forall k ensures ProgressOf(m, m, ctxs, 0, k) {
      assert Listed(m, k) + [] == Listed(m, k);
    }
  }

  // ---------- what a full registration means ----------

  /** A table into which exactly ctxs were registered. */
  ghost predicate Registered(m: Domains, ctxs: seq<Ctx>) {
    MapOk(m) && forall k :: Listed(m, k) == Select(ctxs, |ctxs|, k)
  }

  lemma FreshRegistration(m: Domains, ctxs: seq<Ctx>)
    requires MapOk(m) && Progress(map[], m, ctxs, |ctxs|)
    ensures Registered(m, ctxs)
  {
    hide Select, DomainOk, Flatten;
    forall k ensures Listed(m, k) == Select(ctxs, |ctxs|, k) {
      assert ProgressOf(map[], m, ctxs, |ctxs|, k);
      assert Listed(m, k) == [] + Select(ctxs, |ctxs|, k);
    }
  }

  lemma SelectLast(ctxs: seq<Ctx>, n: nat, key: Key)
    requires 0 < n <= |ctxs|
    ensures CtxKey(ctxs[n - 1]) == key ==> Select(ctxs, n, key) == Select(ctxs, n - 1, key) + [n - 1]
    ensures CtxKey(ctxs[n - 1]) != key ==> Select(ctxs, n, key) == Select(ctxs, n - 1, key)
  {
    hide CtxKey;
  }

  lemma CountLast(r: seq<nat>, x: nat, idx: nat)
    ensures multiset(r + [x])[idx] == multiset(r)[idx] + if idx == x then 1 else 0
  {
  }

  lemma {:induction false} SelectCount(ctxs: seq<Ctx>, n: nat, key: Key, idx: nat)
    requires n <= |ctxs|
    ensures multiset(Select(ctxs, n, key))[idx] == if idx < n && CtxKey(ctxs[idx]) == key then 1 else 0
  {
    hide *;
    if n == 0 {
      SelectStart(ctxs, key);
    } else {
      SelectCount(ctxs, n - 1, key, idx);
      SelectLast(ctxs, n, key);
      CountLast(Select(ctxs, n - 1, key), n - 1, idx);
    }
  }

  lemma SelectStart(ctxs: seq<Ctx>, key: Key)
    ensures Select(ctxs, 0, key) == []
  {
  }

  /** Segments of the list that hold the index. */
  ghost function Holding(segs: seq<Segment>, idx: nat): nat {
    if segs == [] then 0
    else
      var s := segs[|segs| - 1];
      Holding(segs[..|segs| - 1], idx) + (if s.begin <= idx <= s.end then 1 else 0)
  }

  lemma {:induction false} IndicesCount(b: nat, e: nat, idx: nat)
    requires b <= e
    ensures multiset(Indices(Segment(b, e)))[idx] == if b <= idx <= e then 1 else 0
    decreases e
  {
    if b == e {
      assert Indices(Segment(b, e)) == [b];
    } else {
      IndicesCount(b, e - 1, idx);
      assert Indices(Segment(b, e)) == Indices(Segment(b, e - 1)) + [e];
    }
  }

  lemma {:induction false} HoldingCount(segs: seq<Segment>, idx: nat)
    requires Ordered(segs)
    ensures Holding(segs, idx) == multiset(Flatten(segs))[idx]
    decreases |segs|
  {
    if segs != [] {
      var s := segs[|segs| - 1];
      HoldingCount(segs[..|segs| - 1], idx);
      IndicesCount(s.begin, s.end, idx);
      assert s == Segment(s.begin, s.end);
    }
  }

  /** Every context lies in exactly one segment of exactly one domain, the one of its key. */
  lemma InOneSegment(m: Domains, ctxs: seq<Ctx>, key: Key, idx: nat)
    requires Registered(m, ctxs) && key in m
    ensures Holding(m[key].segments, idx) == if idx < |ctxs| && CtxKey(ctxs[idx]) == key then 1 else 0
  {
    assert Listed(m, key) == Select(ctxs, |ctxs|, key);
    SelectCount(ctxs, |ctxs|, key, idx);
    HoldingCount(m[key].segments, idx);
  }

  lemma HasDomain(m: Domains, ctxs: seq<Ctx>, idx: nat)
    requires Registered(m, ctxs) && idx < |ctxs|
    ensures CtxKey(ctxs[idx]) in m
  {
    SelectCount(ctxs, |ctxs|, CtxKey(ctxs[idx]), idx);
    assert Listed(m, CtxKey(ctxs[idx])) == Select(ctxs, |ctxs|, CtxKey(ctxs[idx]));
  }

  /**
  A context is listed under its own type exactly when that type is at most SOFT: the two
  later types are listed as hardware, and no domain lists contexts under them.
  */
  lemma ListedUnderOwnTypeIff(m: Domains, ctxs: seq<Ctx>, idx: nat)
    requires Registered(m, ctxs) && idx < |ctxs|
    ensures var c := ctxs[idx];
      idx in Listed(m, Key(0, c.mode, c.opType, c.ctxType)) <==> c.ctxType <= SOFT
  {
    var c := ctxs[idx];
    var own := Key(0, c.mode, c.opType, c.ctxType);
    SelectCount(ctxs, |ctxs|, own, idx);
    assert Listed(m, own) == Select(ctxs, |ctxs|, own);
  }

  /** One context of the first of the later types: registered, and not under its type. */
  lemma LaterTypeUnlisted() returns (m: Domains)
    ensures Registered(m, [Ctx(0, 0, 4)])
    ensures 0 !in Listed(m, Key(0, 0, 0, 4)) && 0 in Listed(m, Key(0, 0, 0, 0))
  {
    var ctxs, key := [Ctx(0, 0, 4)], Key(0, 0, 0, 0);
    NothingYet(map[], ctxs);
    RunRegistered(map[], map[], ctxs, 0, 1, key);
    m := WithSegment(Inserted(map[], key), key, 0, 0);
    FreshRegistration(m, ctxs);
    ListedUnderOwnTypeIff(m, ctxs, 0);
    SelectCount(ctxs, 1, key, 0);
    hide Select;
    assert Listed(m, key) == Select(ctxs, |ctxs|, key);
  }

  lemma {:induction false} SelectNone(ctxs: seq<Ctx>, n: nat, key: Key)
    requires n <= |ctxs| && key.prop > SOFT
    ensures Select(ctxs, n, key) == []
  {
    if n > 0 {
      SelectNone(ctxs, n - 1, key);
    }
  }

  lemma LaterTypesDrawNothing(m: Domains, ctxs: seq<Ctx>, key: Key)
    requires Registered(m, ctxs) && key.prop > SOFT
    ensures Listed(m, key) == []
  {
    SelectNone(ctxs, |ctxs|, key);
    assert Listed(m, key) == Select(ctxs, |ctxs|, key);
  }

  datatype Check = Passed | Busy | Refused

  /** wd_check_ctx. */
  function CheckCtx(ctxs: seq<Ctx>, mode: nat, idx: nat): Check {
    if idx == QUEUE_FULL then Busy
    else if idx >= |ctxs| then Refused
    else if ctxs[idx].ctxType == 0 && ctxs[idx].mode != mode then Refused
    else Passed
  }

  /** A drawn index is never refused, and passes unless it is the reserved "queue full" value. */
  lemma DrawPassesCheck(m: Domains, ctxs: seq<Ctx>, key: Key, idx: nat)
    requires Registered(m, ctxs) && idx in Listed(m, key)
    ensures idx < |ctxs| && ctxs[idx].mode == key.mode && ctxs[idx].opType == key.opType && key.region == 0
    ensures ctxs[idx].ctxType == key.prop || (ctxs[idx].ctxType > SOFT && key.prop == 0)
    ensures CheckCtx(ctxs, key.mode, idx) == if idx == QUEUE_FULL then Busy else Passed
  {
    SelectCount(ctxs, |ctxs|, key, idx);
    assert Listed(m, key) == Select(ctxs, |ctxs|, key);
  }

  /** A hardware context is refused for every mode but the one it was registered with; a software one for none. */
  lemma RefusedIff(m: Domains, ctxs: seq<Ctx>, key: Key, idx: nat, mode: nat)
    requires Registered(m, ctxs) && idx in Listed(m, key) && idx != QUEUE_FULL
    ensures idx < |ctxs| && (CheckCtx(ctxs, mode, idx) == Refused <==> ctxs[idx].ctxType == 0 && mode != key.mode)
    ensures CheckCtx(ctxs, mode, |ctxs| + idx) in {Refused, Busy}
  {
    DrawPassesCheck(m, ctxs, key, idx);
  }

  /** Enough contexts of one kind, and the index of one of them is taken for "queue full". */
  lemma FullIndexBusy() returns (m: Domains, ctxs: seq<Ctx>)
    ensures Registered(m, ctxs) && |ctxs| == QUEUE_FULL + 1
    ensures QUEUE_FULL in Listed(m, Key(0, 0, 0, 0)) && CheckCtx(ctxs, 0, QUEUE_FULL) == Busy
  {
    var key := Key(0, 0, 0, 0);
    ctxs := seq(QUEUE_FULL + 1, _ => Ctx(0, 0, 0));
    NothingYet(map[], ctxs);
    RunRegistered(map[], map[], ctxs, 0, |ctxs|, key);
    m := WithSegment(Inserted(map[], key), key, 0, QUEUE_FULL);
    FreshRegistration(m, ctxs);
    SelectCount(ctxs, |ctxs|, key, QUEUE_FULL);
    hide Select;
    assert Listed(m, key) == Select(ctxs, |ctxs|, key);
  }

  /** Draws leave the table one into which exactly ctxs were registered. */
  lemma DrawKeepsRegistered(m: Domains, ctxs: seq<Ctx>, key: Key)
    requires Registered(m, ctxs) && key in m && m[key].segments != []
    ensures DomainOk(m[key]) && Registered(m[key := Advance(m[key])], ctxs)
  {
    hide Select, Flatten;
    DrawIsNext(m[key]);
    var m' := m[key := Advance(m[key])];
    assert MapOk(m');
    forall k ensures Listed(m', k) == Select(ctxs, |ctxs|, k) {
      assert Listed(m, k) == Select(ctxs, |ctxs|, k);
    }
  }
}
