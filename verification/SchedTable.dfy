/**
The scheduler's domain table of wd_sched.c and the registration of contexts of
wd_util.c: a chained hash table on four-part keys, filled by runs of like contexts and
drawn from by sessions.
*/
module SchedTable {
  import ModArith
  import opened SegmentCursor

  const MODES := 2
  const PROP_MAX := 6
  const SOFT := 3
  const QUEUE_FULL := 0x1FFF_FFFF

  datatype Code = Success | Invalid | NoMemory
  datatype Draw = Index(idx: nat) | InvalidPos
  datatype Found = Pos(pos: nat) | Absent

  /** struct sched_params. */
  datatype Params = Params(numaId: int, opType: nat, mode: nat, begin: nat, end: nat, prop: int)

  /** What registration reads of struct wd_ctx_internal. */
  datatype Ctx = Ctx(opType: nat, mode: nat, ctxType: nat)

  type Domains = map<Key, Domain>

  /** wd_sched_hash_compute, with the 32-bit wrap. */
  function Hash(key: Key, size: nat): (h: nat)
    requires size > 0
    ensures h < size
  {
    ((key.region * 73 + key.mode * 13 + key.opType * 7 + key.prop * 11) % 0x1_0000_0000) % size
  }

  /** What each part of a key adds. */
  lemma HashWeights(k: nat, size: nat)
    requires 73 * k < size < 0x1_0000_0000
    ensures Hash(Key(k, 0, 0, 0), size) == 73 * k && Hash(Key(0, k, 0, 0), size) == 13 * k
    ensures Hash(Key(0, 0, k, 0), size) == 7 * k && Hash(Key(0, 0, 0, k), size) == 11 * k
  {
    NoWrap(73 * k, size);
    NoWrap(13 * k, size);
    NoWrap(7 * k, size);
    NoWrap(11 * k, size);
  }

  lemma NoWrap(x: nat, size: nat)
    requires x < size < 0x1_0000_0000
    ensures x % 0x1_0000_0000 % size == x
  {
    ModArith.DivModUnique(x, 0x1_0000_0000, 0, x);
    ModArith.DivModUnique(x, size, 0, x);
  }

  // ---------- chains as maps ----------

  /** Position of the first node with the key. */
  ghost function Find(chain: seq<Domain>, key: Key): (f: Found)
    ensures f.Pos? ==> f.pos < |chain| && chain[f.pos].key == key
    decreases |chain|
  {
    if chain == [] then Absent
    else if chain[0].key == key then Pos(0)
    else
      var f := Find(chain[1..], key);
      if f.Pos? then Pos(f.pos + 1) else Absent
  }

  /** The chain holds for this key what the map holds for it. */
  ghost predicate Agrees(chain: seq<Domain>, m: Domains, key: Key) {
    var f := Find(chain, key);
    f.Pos? == (key in m) && (f.Pos? ==> chain[f.pos] == m[key])
  }

  lemma {:induction false} FindFirst(chain: seq<Domain>, key: Key, pos: nat)
    requires pos <= |chain| && forall i :: 0 <= i < pos ==> chain[i].key != key
    ensures pos == |chain| ==> Find(chain, key) == Absent
    ensures pos < |chain| && chain[pos].key == key ==> Find(chain, key) == Pos(pos)
    decreases |chain|
  {
    if chain != [] && pos > 0 {
      FindFirst(chain[1..], key, pos - 1);
    }
  }

  lemma {:induction false} FindReplace(chain: seq<Domain>, pos: nat, d: Domain, key: Key)
    requires pos < |chain| && chain[pos].key == d.key
    ensures Find(chain[pos := d], key) == Find(chain, key)
    decreases |chain|
  {
    var chain' := chain[pos := d];
    if pos > 0 {
      FindReplace(chain[1..], pos - 1, d, key);
      assert chain'[1..] == chain[1..][pos - 1 := d];
    } else {
      assert chain'[1..] == chain[1..];
    }
  }

  lemma AgreesReplace(chain: seq<Domain>, m: Domains, pos: nat, d: Domain, key: Key)
    requires Find(chain, d.key) == Pos(pos) && Agrees(chain, m, key)
    ensures Agrees(chain[pos := d], m[d.key := d], key)
  {
    FindReplace(chain, pos, d, key);
  }

  lemma AgreesPush(chain: seq<Domain>, m: Domains, d: Domain, key: Key)
    requires d.key !in m && Agrees(chain, m, key)
    ensures Agrees([d] + chain, m[d.key := d], key)
  {
    assert ([d] + chain)[1..] == chain;
  }

  ghost predicate MapOk(m: Domains) {
    forall key :: key in m ==> m[key].key == key && DomainOk(m[key])
  }

  // ---------- what registration and drawing do to the map ----------

  /** Every context index a domain lists, in order; none for a missing domain. */
  ghost function Listed(m: Domains, key: Key): (r: seq<nat>)
    requires MapOk(m)
  {
    if key in m then Flatten(m[key].segments) else []
  }

  ghost predicate Usable(m: Domains, key: Key) {
    key in m && m[key].valid
  }

  function Prop(p: int): (r: nat)
    ensures r <= SOFT && (r == p || r == 0) && (0 <= p <= SOFT ==> r == p)
  {
    if p < 0 || p > SOFT then 0 else p
  }

  function ParamKey(p: Params): Key {
    Key(p.numaId, p.mode, p.opType, Prop(p.prop))
  }

  predicate ParamsOk(p: Params, regions: nat, types: nat) {
    p.begin <= p.end && 0 <= p.numaId < regions && p.opType < types && p.mode < MODES
  }

  ghost function Inserted(m: Domains, key: Key): (r: Domains)
    requires MapOk(m)
    ensures MapOk(r) && key in r && Listed(r, key) == Listed(m, key)
  {
    if key in m then m else m[key := NewDomain(key)]
  }

  ghost function WithSegment(m: Domains, key: Key, begin: nat, end: nat): (r: Domains)
    requires MapOk(m) && key in m && begin <= end
    ensures MapOk(r) && key in r
    ensures Listed(r, key) == Listed(m, key) + Indices(Segment(begin, end))
  {
    AppendKeepsCursor(m[key], begin, end);
    m[key := AddSegment(m[key], begin, end).(valid := true)]
  }

  class Table {
    const regions: nat
    const types: nat
    var buckets: array<seq<Domain>>
    var count: nat
    ghost var m: Domains

    ghost predicate Valid()
      reads this, buckets
      ensures Valid() ==> MapOk(m)
    {
      && buckets.Length > 0 && MapOk(m) && count == |m|
      && forall key :: Agrees(buckets[Hash(key, buckets.Length)], m, key)
    }

    constructor (size: nat, regions: nat, types: nat)
      requires size > 0
      ensures Valid() && m == map[] && fresh(buckets)
      ensures this.regions == regions && this.types == types
    {
      this.regions, this.types := regions, types;
      var chains := new seq<Domain>[size](_ => []);
      buckets, count, m := chains, 0, map[];
    }

    /** wd_sched_hash_table_lookup: position in the key's chain. */
    method Lookup(key: Key) returns (f: Found)
      requires Valid()
      ensures f == Find(buckets[Hash(key, buckets.Length)], key)
      ensures f.Pos? <==> key in m
      ensures f.Pos? ==> buckets[Hash(key, buckets.Length)][f.pos] == m[key]
    {
      assert Agrees(buckets[Hash(key, buckets.Length)], m, key);
      hide Hash, MapOk, Find;
      var chain := buckets[Hash(key, buckets.Length)];
      var i := 0;
      while i < |chain| && chain[i].key != key
        invariant i <= |chain| && forall k :: 0 <= k < i ==> chain[k].key != key
      {
        i := i + 1;
      }
      FindFirst(chain, key, i);
      f := if i < |chain| then Pos(i) else Absent;
    }

    /** The node found for d's key is overwritten with d. */
    method Store(f: Found, d: Domain)
      requires Valid() && DomainOk(d)
      requires f.Pos? && Find(buckets[Hash(d.key, buckets.Length)], d.key) == f
      modifies this`m, buckets
      ensures Valid() && m == old(m)[d.key := d]
    {
      hide Hash, Find, DomainOk;
      ghost var n := buckets.Length;
      var h := Hash(d.key, buckets.Length);
      var was := buckets[h];
      assert Agrees(was, m, d.key);
      forall key | Hash(key, n) == h ensures Agrees(was[f.pos := d], m[d.key := d], key) {
        assert Agrees(buckets[Hash(key, n)], m, key);
        AgreesReplace(was, m, f.pos, d, key);
      }
      forall key | Hash(key, n) != h ensures Agrees(buckets[Hash(key, n)], m[d.key := d], key) {
        assert Agrees(buckets[Hash(key, n)], m, key);
      }
      buckets[h] := was[f.pos := d];
      assert m[d.key := d].Keys == m.Keys;
      m := m[d.key := d];
    }

    /** wd_sched_hash_table_insert: an existing node is returned, a new one goes in front. */
    method Insert(key: Key, nodeOk: bool) returns (f: Found)
      requires Valid()
      modifies this`m, this`count, buckets
      ensures Valid()
      ensures f == Find(buckets[Hash(key, buckets.Length)], key)
      ensures f.Absent? <==> key !in old(m) && !nodeOk
      ensures m == if f.Absent? then old(m) else Inserted(old(m), key)
    {
      f := Lookup(key);
      if f.Absent? && nodeOk {
        PushFront(NewDomain(key));
        f := Pos(0);
      }
    }

    /** A new node in front of its chain. */
    method PushFront(d: Domain)
      requires Valid() && d.key !in m && DomainOk(d)
      modifies this`m, this`count, buckets
      ensures Valid() && m == old(m)[d.key := d]
      ensures Find(buckets[Hash(d.key, buckets.Length)], d.key) == Pos(0)
    {
      hide Hash, Find, DomainOk;
      ghost var n := buckets.Length;
      var h := Hash(d.key, buckets.Length);
      var was := buckets[h];
      forall k | Hash(k, n) == h ensures Agrees([d] + was, m[d.key := d], k) {
        assert Agrees(buckets[Hash(k, n)], m, k);
        AgreesPush(was, m, d, k);
      }
      forall k | Hash(k, n) != h ensures Agrees(buckets[Hash(k, n)], m[d.key := d], k) {
        assert Agrees(buckets[Hash(k, n)], m, k);
      }
      buckets[h] := [d] + was;
      assert m[d.key := d].Keys == m.Keys + {d.key};
      m, count := m[d.key := d], count + 1;
      FindFirst(buckets[h], d.key, 0);
    }

    /** wd_sched_rr_instance; nodeOk and segOk are the outcomes of the two allocations. */
    method RrInstance(p: Params, nodeOk: bool, segOk: bool) returns (code: Code)
      requires Valid()
      modifies this`m, this`count, buckets
      ensures Valid()
      ensures code.Invalid? <==> !ParamsOk(p, regions, types)
      ensures code.NoMemory? <==>
        ParamsOk(p, regions, types) && (!segOk || (!nodeOk && ParamKey(p) !in old(m)))
      ensures code.Success? ==> m == WithSegment(Inserted(old(m), ParamKey(p)), ParamKey(p), p.begin, p.end)
      ensures code.Invalid? ==> m == old(m)
      ensures code.NoMemory? ==> m == old(m) || m == Inserted(old(m), ParamKey(p))
    {
      if p.begin > p.end || p.numaId >= regions || p.numaId < 0 || p.opType >= types || p.mode >= MODES {
        return Invalid;
      }
      var key := ParamKey(p);
      var f := Insert(key, nodeOk);
      if f.Absent? || !segOk {
        return NoMemory;
      }
      hide Hash, Find, Valid, MapOk;
      Append(key, f, p.begin, p.end);
      code := Success;
    }

    /** wd_sched_domain_add_segment on the node found, which becomes usable. */
    method Append(key: Key, f: Found, begin: nat, end: nat)
      requires Valid() && begin <= end
      requires f.Pos? && Find(buckets[Hash(key, buckets.Length)], key) == f
      modifies this`m, buckets
      ensures Valid() && key in old(m) && m == WithSegment(old(m), key, begin, end)
    {
      var h := Hash(key, buckets.Length);
      assert Agrees(buckets[h], m, key);
      hide Hash, Find, DomainOk, Listed, Flatten, Indices, Ordered;
      var d := buckets[h][f.pos];
      AppendKeepsCursor(d, begin, end);
      ValidFlag(AddSegment(d, begin, end));
      Store(f, AddSegment(d, begin, end).(valid := true));
    }

    /** session_sched_init_ctx: one round-robin draw for a session. */
    method SessionDraw(region: int, mode: nat, opType: nat, prop: nat) returns (r: Draw)
      requires Valid()
      modifies this`m, buckets
      ensures Valid()
      ensures r.Index? <==>
        && region < regions && mode < MODES && opType < types && prop < PROP_MAX
        && Usable(old(m), Key(region, mode, opType, prop))
        && Listed(old(m), Key(region, mode, opType, prop)) != []
      ensures r.InvalidPos? ==> m == old(m)
      ensures r.Index? ==>
        var key := Key(region, mode, opType, prop);
        && old(m[key]).current.At? && old(m[key]).current.index < |old(m[key]).segments|
        && r.idx == Drawn(old(m[key])) && m == old(m)[key := Advance(old(m[key]))]
        && r.idx in Listed(old(m), key)
    {
      if region >= regions || mode >= MODES || opType >= types || prop >= PROP_MAX {
        return InvalidPos;
      }
      var key := Key(region, mode, opType, prop);
      var f := Lookup(key);
      if f.Absent? {
        return InvalidPos;
      }
      var h := Hash(key, buckets.Length);
      hide Hash, Find;
      var d := buckets[h][f.pos];
      TotalZero(d);
      if !d.valid || d.segments == [] || d.total == 0 {
        return InvalidPos;
      }
      DrawIsNext(d);
      Store(f, Advance(d));
      r := Index(Drawn(d));
    }
  }

  lemma ValidFlag(d: Domain)
    requires DomainOk(d)
    ensures DomainOk(d.(valid := true))
  {
  }

  lemma TotalZero(d: Domain)
    requires DomainOk(d)
    ensures d.total == 0 <==> d.segments == []
    ensures Flatten(d.segments) == [] <==> d.segments == []
  {
    if d.segments != [] {
      NonEmptyFlatten(d.segments);
    }
  }
}
