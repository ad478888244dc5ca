/**
The two big-number layouts of drv/hisi_hpre.c: the user's, left-aligned with a length,
and the device's, right-aligned in a buffer of fixed size.
*/
module BigNumber {
  import opened Bytes

  /** The number written big-endian. */
  ghost function Value(s: seq<Byte>): (v: nat) {
    if s == [] then 0 else 256 * Value(s[..|s| - 1]) + s[|s| - 1] as nat
  }

  /** Numbers of one length have different values. */
  lemma {:induction false} ValueInjective(a: seq<Byte>, b: seq<Byte>)
    requires |a| == |b| && Value(a) == Value(b)
    ensures a == b
    decreases |a|
  {
    if a != [] {
      var m := |a| - 1;
      ValueLast(a);
      ValueLast(b);
      hide Value;
      LastDigit(Value(a[..m]), a[m] as nat, Value(b[..m]), b[m] as nat);
      SameByte(a[m], b[m]);
      ValueInjective(a[..m], b[..m]);
      assert a == a[..m] + [a[m]] && b == b[..m] + [b[m]];
    }
  }

  lemma ValueLast(s: seq<Byte>)
    requires s != []
    ensures Value(s) == 256 * Value(s[..|s| - 1]) + s[|s| - 1] as nat
  {
  }

  lemma LastDigit(a: nat, x: nat, b: nat, y: nat)
    requires x < 256 && y < 256 && 256 * a + x == 256 * b + y
    ensures a == b && x == y
  {
  }

  /** Leading zero bytes to drop so that at least one byte stays. */
  function LeadingZeros(s: seq<Byte>): (k: nat)
    ensures k <= |s| && (s != [] ==> k < |s|)
    ensures forall i :: 0 <= i < k ==> s[i] == 0
    ensures |s| > 1 && k < |s| - 1 ==> s[k] != 0
    decreases |s|
  {
    if |s| <= 1 || s[0] != 0 then 0 else 1 + LeadingZeros(s[1..])
  }

  function Stripped(s: seq<Byte>): (r: seq<Byte>)
    ensures s != [] ==> r != []
  {
    s[LeadingZeros(s)..]
  }

  ghost function Aligned(data: seq<Byte>, b: nat): (r: seq<Byte>)
    requires |data| <= b
    ensures |r| == b
  {
    Zeros(b - |data|) + data
  }

  lemma {:induction false} ValuePad(n: nat, s: seq<Byte>)
    ensures Value(Zeros(n) + s) == Value(s)
    decreases n + |s|
  {
    var p := Zeros(n) + s;
    if s != [] {
      ValuePad(n, s[..|s| - 1]);
      assert p[..|p| - 1] == Zeros(n) + s[..|s| - 1];
    } else if n > 0 {
      ValuePad(n - 1, []);
      assert p[..n - 1] == Zeros(n - 1) + [];
      assert p[n - 1] == 0;
    }
  }

  lemma StrippedValue(s: seq<Byte>)
    ensures Value(Stripped(s)) == Value(s)
  {
    var k := LeadingZeros(s);
    assert s == Zeros(k) + s[k..];
    ValuePad(k, s[k..]);
  }

  lemma {:induction false} LeadingZerosUnique(s: seq<Byte>, k: nat)
    requires k < |s| && forall i :: 0 <= i < k ==> s[i] == 0
    requires k == |s| - 1 || s[k] != 0
    ensures LeadingZeros(s) == k
    decreases |s|
  {
    if k > 0 {
      LeadingZerosUnique(s[1..], k - 1);
    }
  }

  lemma StrippedPad(n: nat, s: seq<Byte>)
    requires s != []
    ensures Stripped(Zeros(n) + s) == Stripped(s)
  {
    var k := LeadingZeros(s);
    var p := Zeros(n) + s;
    LeadingZerosUnique(p, n + k);
  }

  // ---------- to the device ----------

  /** Some byte behind the data is set where the byte as far from the front is clear. */
  predicate LooksAligned(s: seq<Byte>, d: nat, b: nat)
    requires d <= b <= |s|
  {
    exists i :: 0 <= i < b - d && s[d + i] != 0 && s[i] == 0
  }

  /** is_hpre_bin_fmt. */
  method IsHpreFormat(same: bool, src: array<Byte>, d: nat, b: nat) returns (yes: bool)
    requires d <= b <= src.Length
    ensures yes <==> b == d || (same && LooksAligned(src[..], d, b))
  {
    var lens := b - d;
    if lens == 0 {
      return true;
    }
    var i := 0;
    while i < lens
      invariant 0 <= i <= lens
      invariant forall k :: 0 <= k < i ==> !(src[d + k] != 0 && src[k] == 0)
    {
      if src[d + i] != 0 && src[i] == 0 {
        break;
      }
      i := i + 1;
    }
    assert i < lens ==> src[..][d + i] != 0 && src[..][i] == 0;
    yes := same && i != lens;
  }

  /** crypto_bin_to_hpre_bin; dst and src are one array or two. */
  method ToHpre(dst: array<Byte>, src: array<Byte>, b: nat, d: nat) returns (ok: bool)
    requires b <= dst.Length && b <= src.Length
    modifies dst
    ensures ok <==> 0 < d <= b
    ensures !ok ==> dst[..] == old(dst[..])
    ensures ok && (b == d || (dst == src && LooksAligned(old(src[..]), d, b))) ==> dst[..] == old(dst[..])
    ensures ok && b != d && !(dst == src && LooksAligned(old(src[..]), d, b)) ==>
      dst[..] == Aligned(old(src[..d]), b) + old(dst[b..])
  {
    if b == 0 || d == 0 || b < d {
      return false;
    }
    var already := IsHpreFormat(dst == src, src, d, b);
    if already {
      return true;
    }
    RightAlign(dst, src, b, d);
    ok := true;
  }

  /** The copying loop, from the last byte down, so that it may work in place. */
  method RightAlign(dst: array<Byte>, src: array<Byte>, b: nat, d: nat)
    requires d <= b <= dst.Length && d <= src.Length
    modifies dst
    ensures dst[..] == Aligned(old(src[..d]), b) + old(dst[b..])
  {
    ghost var data, was := src[..d], dst[..];
    ghost var full := Aligned(data, b);
    assert forall k :: 0 <= k < b ==> full[k] == if k < b - d then 0 else data[k - (b - d)];
    hide Aligned, Zeros;
    var i, j := d - 1, b - 1;
    while j >= 0
      invariant -1 <= j < b && i == j - (b - d)
      invariant forall k :: j < k < b ==> dst[k] == full[k]
      invariant forall k :: b <= k < dst.Length ==> dst[k] == was[k]
      invariant forall k :: 0 <= k <= i ==> src[k] == data[k]
    {
      if i >= 0 {
        dst[j] := src[i];
      } else {
        dst[j] := 0;
      }
      j, i := j - 1, i - 1;
    }
    assert dst[..b] == full && dst[b..] == was[b..];
  }

  /** Right-aligning changes neither the number nor, stripped, its bytes. */
  lemma AlignedMeans(data: seq<Byte>, b: nat)
    requires 0 < |data| <= b
    ensures Value(Aligned(data, b)) == Value(data)
    ensures Stripped(Aligned(data, b)) == Stripped(data)
  {
    ValuePad(b - |data|, data);
    StrippedPad(b - |data|, data);
  }

  /** A buffer that equals its own shift by n is all zero. */
  lemma {:induction false} SelfShiftIsZero(s: seq<Byte>, d: nat, i: nat)
    requires d < |s| && s == Aligned(s[..d], |s|) && i < |s|
    ensures s[i] == 0
    decreases i
  {
    var n := |s| - d;
    if i >= n {
      assert s[i] == s[..d][i - n];
      SelfShiftIsZero(s, d, i - n);
    }
  }

  /**
  In place, the data end up right-aligned exactly when the layout test does not fire: a
  buffer it leaves alone is never the right-aligned data.
  */
  lemma InPlaceAlignedIff(was: seq<Byte>, d: nat, now: seq<Byte>)
    requires 0 < d < |was|
    requires now == if LooksAligned(was, d, |was|) then was else Aligned(was[..d], |was|)
    ensures now == Aligned(was[..d], |was|) <==> !LooksAligned(was, d, |was|)
  {
    if LooksAligned(was, d, |was|) && now == Aligned(was[..d], |was|) {
      var i :| 0 <= i < |was| - d && was[d + i] != 0 && was[i] == 0;
      SelfShiftIsZero(was, d, d + i);
    }
  }

  /** One byte of zero in front of a leftover 5: taken for the number 5 already aligned. */
  lemma LeftoverMisread()
    ensures var was: seq<Byte> := [0, 5];
      LooksAligned(was, 1, 2) && was != Aligned(was[..1], 2) && Value(was) == 5 && Value(was[..1]) == 0
  {
    var was: seq<Byte> := [0, 5];
    assert was[1 + 0] != 0 && was[0] == 0;
    InPlaceAlignedIff(was, 1, was);
    assert was[..1][..0] == [];
  }

  /** Zeros behind the data never look aligned. */
  lemma ZeroTailConverts(was: seq<Byte>, d: nat)
    requires d <= |was| && forall i :: d <= i < |was| ==> was[i] == 0
    ensures !LooksAligned(was, d, |was|)
  {
  }

  /**
  Converting a shorter number twice is converting it once exactly when it is zero or has a
  nonzero byte among its last b - |data| ones.
  */
  lemma TwiceIff(data: seq<Byte>, b: nat)
    requires 0 < |data| < b
    ensures var once := Aligned(data, b);
      var twice := if LooksAligned(once, |data|, b) then once else Aligned(once[..|data|], b);
      twice == once <==>
        || (forall i :: 0 <= i < |data| ==> data[i] == 0)
        || (exists i :: 0 <= i < |data| && |data| - (b - |data|) <= i && data[i] != 0)
  {
    var d := |data|;
    var once := Aligned(data, b);
    LooksAlignedOnce(data, b);
    if !LooksAligned(once, d, b) {
      ShiftOfZeros(data, b);
    }
  }

  lemma LooksAlignedOnce(data: seq<Byte>, b: nat)
    requires 0 < |data| < b
    ensures LooksAligned(Aligned(data, b), |data|, b) <==>
      exists i :: 0 <= i < |data| && |data| - (b - |data|) <= i && data[i] != 0
  {
    var d, n, once := |data|, b - |data|, Aligned(data, b);
    forall i | 0 <= i < d && d - n <= i && data[i] != 0 ensures LooksAligned(once, d, b) {
      assert once[d + (n + i - d)] != 0 && once[n + i - d] == 0;
    }
    if LooksAligned(once, d, b) {
      var i :| 0 <= i < n && once[d + i] != 0 && once[i] == 0;
      assert data[d + i - n] != 0;
    }
  }

  lemma ShiftOfZeros(data: seq<Byte>, b: nat)
    requires 0 < |data| < b
    ensures Aligned(Aligned(data, b)[..|data|], b) == Aligned(data, b) <==>
      forall i :: 0 <= i < |data| ==> data[i] == 0
  {
    var d, once := |data|, Aligned(data, b);
    if Aligned(once[..d], b) == once {
      forall i | 0 <= i < d ensures data[i] == 0 {
        SelfShiftIsZero(once, d, b - d + i);
      }
    }
  }

  /** The number 256 in three bytes, converted twice, is 1. */
  lemma TwiceShifts()
    ensures Aligned([1, 0], 3) == [0, 1, 0] && !LooksAligned([0, 1, 0], 2, 3) && Aligned([0, 1, 0][..2], 3) == [0, 0, 1]
    ensures Value([0, 1, 0]) == 256 && Value([0, 0, 1]) == 1
  {
    assert Aligned([1, 0], 3) == [0, 1, 0];
    assert [0, 1, 0][..2] == [0, 1] && Aligned([0, 1], 3) == [0, 0, 1];
    assert [0, 1][..1] == [0] && [0, 0, 1][..2] == [0, 0] && [0, 0][..1] == [0] && [0][..0] == [];
    assert Value([0]) == 0 && Value([0, 1]) == 1 && Value([0, 0]) == 0;
  }

  // ---------- from the device ----------

  /** hpre_bin_to_crypto_bin; no value for WD_TRANS_FAIL. */
  method ToCrypto(dst: array<Byte>, src: array<Byte>, b: nat) returns (len: nat)
    requires b <= dst.Length && b <= src.Length
    modifies dst
    ensures b == 0 ==> len == 0 && dst[..] == old(dst[..])
    ensures b > 0 ==> len == |Stripped(old(src[..b]))|
    ensures b > 0 ==> dst[..] == Stripped(old(src[..b])) + Zeros(b - len) + old(dst[b..])
  {
    if b == 0 {
      return 0;
    }
    var j, k := 0, 0;
    while src[j] == 0 && k < b - 1
      invariant k == j < b && forall i :: 0 <= i < j ==> src[i] == 0
      decreases b - j
    {
      j := j + 1;
      k := j;
    }
    LeadingZerosUnique(src[..b], k);
    if j == 0 && src == dst {
      assert dst[..] == src[..b] + Zeros(0) + dst[b..];
      return b;
    }
    LeftAlign(dst, src, b, j);
    len := b - k;
  }

  /** The copying loop, from the first byte up, so that it may work in place. */
  method LeftAlign(dst: array<Byte>, src: array<Byte>, b: nat, cnt: nat)
    requires cnt <= b <= dst.Length && b <= src.Length
    modifies dst
    ensures dst[..] == old(src[cnt..b]) + Zeros(cnt) + old(dst[b..])
  {
    ghost var full, was, data := src[cnt..b] + Zeros(cnt), dst[..], src[..b];
    assert forall k :: 0 <= k < b ==> full[k] == if k < b - cnt then data[k + cnt] else 0;
    var i, j := 0, cnt;
    while i < b
      invariant 0 <= i <= b && j == i + cnt
      invariant forall k :: 0 <= k < i ==> dst[k] == full[k]
      invariant forall k :: b <= k < dst.Length ==> dst[k] == was[k]
      invariant forall k :: i <= k < b ==> src[k] == data[k]
    {
      if i < b - cnt {
        dst[i] := src[j];
      } else {
        dst[i] := 0;
      }
      j, i := j + 1, i + 1;
    }
    assert dst[..b] == full && dst[b..] == was[b..];
  }

  /**
  There and back in one buffer: a zero-tailed number of d bytes comes back as the same
  number without its leading zeros, with its length.
  */
  method RoundTrip(buf: array<Byte>, b: nat, d: nat) returns (len: nat)
    requires 0 < d <= b == buf.Length && forall i :: d <= i < b ==> buf[i] == 0
    modifies buf
    ensures len == |Stripped(old(buf[..d]))| && buf[..len] == Stripped(old(buf[..d]))
    ensures Value(buf[..len]) == Value(old(buf[..d]))
    ensures forall i :: len <= i < b ==> buf[i] == 0
  {
    hide *;
    ghost var data := buf[..d];
    ZeroTailConverts(buf[..], d);
    AlignedMeans(data, b);
    AlignedFull(data);
    StrippedValue(data);
    var ok := ToHpre(buf, buf, b, d);
    assert buf[..] == Aligned(data, b);
    assert buf[..b] == buf[..];
    len := ToCrypto(buf, buf, b);
    assert buf[..] == Stripped(data) + Zeros(b - len);
    assert buf[..len] == Stripped(data);
  }

  lemma AlignedFull(data: seq<Byte>)
    ensures Aligned(data, |data|) == data
  {
  }
}
