/**
The hardware column order of drv/hisi_dae.c: six passes over the columns, one per
hardware type, each picking the columns of that type from left to right.
*/
module HwOrder {

  datatype HwType = VChar | Char | Decimal128 | Decimal64 | Sint64 | Sint32

  /** hw_data_type_order. */
  const ORDER: seq<HwType> := [VChar, Char, Decimal128, Decimal64, Sint64, Sint32]

  function Rank(t: HwType): (r: nat)
    ensures r < |ORDER| && ORDER[r] == t
    ensures forall i :: 0 <= i < |ORDER| && ORDER[i] == t ==> i == r
  {
    match t
    case VChar => 0
    case Char => 1
    case Decimal128 => 2
    case Decimal64 => 3
    case Sint64 => 4
    case Sint32 => 5
  }

  /** The columns picked when pass i has looked at the first j columns. */
  function Picked(types: seq<HwType>, i: nat, j: nat): (r: seq<nat>)
    requires i <= |ORDER| && j <= |types| && (i == |ORDER| ==> j == 0)
    decreases i, j
  {
    if j > 0 then
      Picked(types, i, j - 1) + if types[j - 1] == ORDER[i] then [j - 1] else []
    else if i > 0 then Picked(types, i - 1, |types|)
    else []
  }

  /** The finished order: position k holds the user column sent as hardware column k. */
  function Order(types: seq<HwType>): (r: seq<nat>) {
    Picked(types, |ORDER|, 0)
  }

  /** Column e was picked before pass i looked at column j. */
  predicate Before(types: seq<HwType>, e: nat, i: nat, j: nat) {
    e < |types| && (Rank(types[e]) < i || (Rank(types[e]) == i && e < j))
  }

  /** Earlier positions have a smaller type rank, or the same rank and a smaller column index. */
  ghost predicate StrictLex(types: seq<HwType>, r: seq<nat>) {
    && (forall k :: 0 <= k < |r| ==> r[k] < |types|)
    && forall a, b :: 0 <= a < b < |r| ==> Before(types, r[a], Rank(types[r[b]]), r[b])
  }

  ghost predicate PicksExactly(types: seq<HwType>, r: seq<nat>, i: nat, j: nat) {
    forall e: nat :: e in r <==> Before(types, e, i, j)
  }

  lemma {:induction false} PickedLex(types: seq<HwType>, i: nat, j: nat)
    requires i <= |ORDER| && j <= |types| && (i == |ORDER| ==> j == 0)
    ensures StrictLex(types, Picked(types, i, j)) && PicksExactly(types, Picked(types, i, j), i, j)
    decreases i, j
  {
    if j > 0 {
      PickedLex(types, i, j - 1);
      PickStep(types, i, j - 1);
    } else if i > 0 {
      PickedLex(types, i - 1, |types|);
    }
  }

  lemma PickStep(types: seq<HwType>, i: nat, j: nat)
    requires i < |ORDER| && j < |types|
    requires StrictLex(types, Picked(types, i, j)) && PicksExactly(types, Picked(types, i, j), i, j)
    ensures StrictLex(types, Picked(types, i, j + 1))
    ensures PicksExactly(types, Picked(types, i, j + 1), i, j + 1)
  {
    var r, r' := Picked(types, i, j), Picked(types, i, j + 1);
    if types[j] == ORDER[i] {
      assert r' == r + [j];
      forall a | 0 <= a < |r| ensures Before(types, r[a], Rank(types[j]), j) {
        assert r[a] in r;
      }
      forall e: nat ensures e in r' <==> Before(types, e, i, j + 1) {
        assert e in r' <==> e in r || e == j;
      }
    } else {
      assert r' == r;
      forall e: nat ensures e in r' <==> Before(types, e, i, j + 1) {
        assert e in r <==> Before(types, e, i, j);
      }
    }
  }

  /** No repetition and no gap: the order is a permutation of the column indices. */
  lemma {:induction false} FullLength(n: nat, r: seq<nat>)
    requires forall e: nat :: e in r <==> e < n
    requires forall a, b :: 0 <= a < b < |r| ==> r[a] != r[b]
    ensures |r| == n
  {
    if r == [] {
      assert 0 < n ==> 0 in r;
    } else {
      assert n > 0 by { assert r[0] in r; }
      assert n - 1 in r;
      var k :| 0 <= k < |r| && r[k] == n - 1;
      var r' := r[..k] + r[k + 1..];
      forall e: nat ensures e in r' <==> e < n - 1 {
        if e in r' { assert e in r; }
        if e < n - 1 {
          assert e in r;
          var m :| 0 <= m < |r| && r[m] == e;
          assert r'[if m < k then m else m - 1] == e;
        }
      }
      FullLength(n - 1, r');
    }
  }

  /** The order is a stable sort of the columns by hardware type. */
  lemma OrderIsStableSort(types: seq<HwType>)
    ensures var r := Order(types);
      && |r| == |types|
      && (forall e: nat :: e in r <==> e < |types|)
      && (forall k :: 0 <= k < |r| ==> r[k] < |types|)
      && (forall a, b :: 0 <= a < b < |r| ==> r[a] != r[b])
      && (forall a, b :: 0 <= a < b < |r| ==> Rank(types[r[a]]) <= Rank(types[r[b]]))
      && (forall a, b :: 0 <= a < b < |r| && types[r[a]] == types[r[b]] ==> r[a] < r[b])
  {
    PickedLex(types, |ORDER|, 0);
    var r := Order(types);
    forall a, b | 0 <= a < b < |r| ensures r[a] != r[b] {
      assert Before(types, r[a], Rank(types[r[b]]), r[b]);
    }
    FullLength(|types|, r);
  }
}
