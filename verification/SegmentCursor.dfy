/**
The context domain of wd_sched.c: a list of index ranges with a round-robin cursor.
The cursor is proved to walk the flattened ranges cyclically.
*/
module SegmentCursor {
  import opened ModArith
  import opened Sequences

  /** Context indices begin..end inclusive. */
  datatype Segment = Segment(begin: nat, end: nat)

  datatype Key = Key(region: int, mode: nat, opType: nat, prop: nat)

  /** current is the position of current_segment in the list; no value for the null pointer. */
  datatype Domain = Domain(key: Key, segments: seq<Segment>, total: nat,
                           current: Cursor, pos: nat, valid: bool)
  datatype Cursor = Nowhere | At(index: nat)

  function Span(s: Segment): (n: nat)
    requires s.begin <= s.end
    ensures n > 0
  {
    s.end - s.begin + 1
  }

  predicate Ordered(segs: seq<Segment>) {
    forall i :: 0 <= i < |segs| ==> segs[i].begin <= segs[i].end
  }

  function Indices(s: Segment): (r: seq<nat>)
    requires s.begin <= s.end
  {
    seq(Span(s), i => s.begin + i)
  }

  /** Every context index of the domain, in list order. */
  function Flatten(segs: seq<Segment>): (r: seq<nat>)
    requires Ordered(segs)
  {
    if segs == [] then [] else Flatten(segs[..|segs| - 1]) + Indices(segs[|segs| - 1])
  }

  ghost predicate DomainOk(d: Domain) {
    && Ordered(d.segments) && d.total == |Flatten(d.segments)|
    && (d.segments == [] ==> d.current.Nowhere? && d.pos == 0)
    && (d.segments != [] ==>
          && d.current.At? && d.current.index < |d.segments|
          && d.pos < Span(d.segments[d.current.index]))
  }

  /** Where the cursor stands in the flattened list. */
  ghost function Place(d: Domain): (p: nat)
    requires DomainOk(d) && d.segments != []
  {
    |Flatten(d.segments[..d.current.index])| + d.pos
  }

  function NewDomain(key: Key): (d: Domain)
    ensures DomainOk(d)
  {
    Domain(key, [], 0, Nowhere, 0, false)
  }

  // ---------- the two operations ----------

  /** wd_sched_domain_add_segment; a range with reversed ends is refused. */
  function AddSegment(d: Domain, begin: nat, end: nat): (r: Domain) {
    if begin > end then d
    else
      d.(segments := d.segments + [Segment(begin, end)],
         total := d.total + (end - begin + 1),
         current := if d.current.Nowhere? then At(0) else d.current)
  }

  /** wd_sched_domain_get_next_rr on a domain that has contexts: the cursor afterwards. */
  function Advance(d: Domain): (r: Domain)
    requires d.current.At? && d.current.index < |d.segments|
  {
    var seg := d.segments[d.current.index];
    if d.pos + 1 < seg.end - seg.begin + 1 then d.(pos := d.pos + 1)
    else if d.current.index + 1 < |d.segments| then d.(current := At(d.current.index + 1), pos := 0)
    else d.(current := At(0), pos := 0)
  }

  /** The context index it returns. */
  function Drawn(d: Domain): (idx: nat)
    requires d.current.At? && d.current.index < |d.segments|
  {
    d.segments[d.current.index].begin + d.pos
  }

  // ---------- the walk ----------

  lemma {:induction false} FlattenSplit(segs: seq<Segment>, k: nat)
    requires Ordered(segs) && k < |segs|
    ensures Flatten(segs) == Flatten(segs[..k]) + Indices(segs[k]) + Flatten(segs[k + 1..])
    decreases |segs|
  {
    var m := |segs| - 1;
    if k == m {
      assert Flatten(segs) == Flatten(segs[..k]) + Indices(segs[k]) + [];
    } else {
      var front, rest := segs[..m], segs[k + 1..];
      FlattenSplit(front, k);
      assert front[..k] == segs[..k] && rest[..|rest| - 1] == front[k + 1..] && rest[|rest| - 1] == segs[m];
      Regroup(Flatten(segs[..k]), Indices(segs[k]), Flatten(front[k + 1..]), Indices(segs[m]));
    }
  }

  /** Where segment k begins and ends in the flattened list. */
  lemma Within(segs: seq<Segment>, k: nat, pos: nat)
    requires Ordered(segs) && k < |segs| && pos < Span(segs[k])
    ensures |Flatten(segs[..k])| + Span(segs[k]) == |Flatten(segs[..k + 1])| <= |Flatten(segs)|
    ensures Flatten(segs)[|Flatten(segs[..k])| + pos] == segs[k].begin + pos
    ensures k + 1 == |segs| <==> |Flatten(segs[..k + 1])| == |Flatten(segs)|
  {
    FlattenSplit(segs, k);
    FlattenPrefix(segs, k);
    if k + 1 < |segs| {
      NonEmptyFlatten(segs[k + 1..]);
    }
    hide Flatten;
    var before, own, rest := Flatten(segs[..k]), Indices(segs[k]), Flatten(segs[k + 1..]);
    assert (before + own + rest)[|before| + pos] == own[pos];
    assert k + 1 == |segs| ==> segs[..k + 1] == segs;
  }

  lemma FlattenPrefix(segs: seq<Segment>, k: nat)
    requires Ordered(segs) && k < |segs|
    ensures Flatten(segs[..k + 1]) == Flatten(segs[..k]) + Indices(segs[k])
  {
    assert segs[..k + 1][..k] == segs[..k];
  }

  /** The draw is the element under the cursor, and the cursor moves one place, around the end. */
  lemma DrawIsNext(d: Domain)
    requires DomainOk(d) && d.segments != []
    ensures Place(d) < d.total && Drawn(d) == Flatten(d.segments)[Place(d)]
    ensures DomainOk(Advance(d)) && Advance(d).segments == d.segments && Advance(d).total == d.total
    ensures Place(Advance(d)) == if Place(d) + 1 == d.total then 0 else Place(d) + 1
  {
    DrawnIs(d);
    hide *;
    CursorMoves(d);
  }

  lemma DrawnIs(d: Domain)
    requires DomainOk(d) && d.segments != []
    ensures Place(d) < d.total && Drawn(d) == Flatten(d.segments)[Place(d)]
  {
    Within(d.segments, d.current.index, d.pos);
    hide Flatten, Indices;
  }

  lemma CursorMoves(d: Domain)
    requires DomainOk(d) && d.segments != []
    ensures DomainOk(Advance(d)) && Advance(d).segments == d.segments && Advance(d).total == d.total
    ensures Place(Advance(d)) == if Place(d) + 1 == d.total then 0 else Place(d) + 1
  {
    var k, segs := d.current.index, d.segments;
    Within(segs, k, d.pos);
    EmptyFlatten(segs);
    hide Flatten, Indices, Ordered;
    if d.pos + 1 < Span(segs[k]) {
      assert Advance(d) == d.(pos := d.pos + 1);
    } else if k + 1 < |segs| {
      assert Advance(d) == d.(current := At(k + 1), pos := 0);
    }
  }

  lemma EmptyFlatten(segs: seq<Segment>)
    requires Ordered(segs)
    ensures Flatten(segs[..0]) == []
  {
  }

  lemma NonEmptyFlatten(segs: seq<Segment>)
    requires Ordered(segs) && segs != []
    ensures |Flatten(segs)| > 0
  {
  }

  /** The next n draws, in order. */
  ghost function Draws(d: Domain, n: nat): (r: seq<nat>)
    requires DomainOk(d) && d.segments != []
    ensures |r| == n
    decreases n
  {
    if n == 0 then []
    else
      DrawIsNext(d);
      [Drawn(d)] + Draws(Advance(d), n - 1)
  }

  /** Draw k is element (p + k) mod total of the flattened list. */
  lemma {:induction false} DrawsAreCyclic(d: Domain, n: nat, k: nat)
    requires DomainOk(d) && d.segments != [] && k < n
    ensures 0 < d.total == |Flatten(d.segments)| && Slot(Place(d) + k, d.total) < d.total
    ensures Draws(d, n)[k] == Flatten(d.segments)[Slot(Place(d) + k, d.total)]
    decreases n
  {
    hide Flatten, Place, Slot, Ordered;
    DrawIsNext(d);
    if k == 0 {
      SlotSmall(Place(d), d.total);
    } else {
      DrawsAreCyclic(Advance(d), n - 1, k - 1);
      Around(Place(d), k, d.total);
    }
  }

  lemma Around(p: nat, k: nat, n: nat)
    requires p < n && k > 0
    ensures Slot((if p + 1 == n then 0 else p + 1) + (k - 1), n) == Slot(p + k, n) < n
  {
    if p + 1 == n {
      SlotLap(k - 1, n);
    }
  }

  predicate ReadAt<X(==)>(flat: seq<X>, p: nat, n: nat, turn: seq<X>, k: nat)
    requires 0 < n == |flat| == |turn| && k < n
  {
    Slot(p + k, n) < n && turn[k] == flat[Slot(p + k, n)]
  }

  /** The list read cyclically from place p. */
  lemma Rotated<X>(flat: seq<X>, p: nat, n: nat, turn: seq<X>)
    requires p < n == |flat| == |turn|
    requires forall k :: 0 <= k < n ==> ReadAt(flat, p, n, turn, k)
    ensures multiset(turn) == multiset(flat)
  {
    forall k | 0 <= k < n ensures turn[k] == (flat[p..] + flat[..p])[k] {
      assert ReadAt(flat, p, n, turn, k);
      if p + k < n {
        SlotSmall(p + k, n);
      } else {
        SlotLap(p + k - n, n);
        SlotSmall(p + k - n, n);
      }
    }
    assert turn == flat[p..] + flat[..p];
    assert flat == flat[..p] + flat[p..];
  }

  /** A full turn of draws returns every context of the domain, each as often as it is listed. */
  lemma FullTurn(d: Domain)
    requires DomainOk(d) && d.segments != []
    ensures multiset(Draws(d, d.total)) == multiset(Flatten(d.segments))
  {
    hide Flatten, Place, Slot, Ordered, Draws;
    DrawIsNext(d);
    var flat, p, n := Flatten(d.segments), Place(d), d.total;
    var turn := Draws(d, n);
    assert p < n == |flat| == |turn|;
    forall k | 0 <= k < n ensures ReadAt(flat, p, n, turn, k) {
      DrawsAreCyclic(d, n, k);
    }
    Rotated(flat, p, n, turn);
  }

  /** Appending a range between draws leaves the cursor where it was and adds at the end. */
  lemma AppendKeepsCursor(d: Domain, begin: nat, end: nat)
    requires DomainOk(d) && begin <= end
    ensures var d' := AddSegment(d, begin, end);
      && DomainOk(d') && d'.segments != []
      && Flatten(d'.segments) == Flatten(d.segments) + Indices(Segment(begin, end))
      && Place(d') == if d.segments == [] then 0 else Place(d)
  {
    var d' := AddSegment(d, begin, end);
    assert d'.segments[..|d.segments|] == d.segments;
    if d.segments != [] {
      assert d'.segments[..d.current.index] == d.segments[..d.current.index];
    }
  }
}
