/**
The software half of SM2 encryption in drv/hisi_hpre.c: key derivation, masking and the
check value, around a shared point (x2, y2) that the device computed. The hash callback
is an arbitrary function that may fail.
*/
module Sm2 {
  import opened Options
  import opened Bytes
  import opened BigNumber
  import ModArith

  type Hash = seq<Byte> -> Option<seq<Byte>>

  datatype Code = Success | Invalid | NoMemory | HashFailed | Mismatch

  /** Digests have the length that the hash type fixes; 0 stands for an unknown type. */
  ghost predicate HashOk(f: Hash, h: nat) {
    forall x :: f(x).Some? ==> |f(x).value| == h
  }

  /** The block counter, 32 bits, big-endian. */
  function Counter(i: nat): (c: seq<Byte>)
    ensures |c| == 4
  {
    var n := i % 0x1_0000_0000;
    [(n / 0x100_0000) as Byte, (n / 0x1_0000 % 0x100) as Byte, (n / 0x100 % 0x100) as Byte, (n % 0x100) as Byte]
  }

  lemma CounterValue(i: nat)
    ensures Value(Counter(i)) == i % 0x1_0000_0000
  {
    var n, c := i % 0x1_0000_0000, Counter(i);
    ByteOfNat(n / 0x100_0000);
    ByteOfNat(n / 0x1_0000 % 0x100);
    ByteOfNat(n / 0x100 % 0x100);
    ByteOfNat(n % 0x100);
    hide Value;
    Digits(n);
    ValueFour(c);
  }

  lemma Digits(n: nat)
    requires n < 0x1_0000_0000
    ensures n == n / 0x100_0000 * 0x100_0000 + n / 0x1_0000 % 0x100 * 0x1_0000 + n / 0x100 % 0x100 * 0x100 + n % 0x100
  {
    var a := n / 0x100;
    var b := a / 0x100;
    assert b == n / 0x1_0000 && b / 0x100 == n / 0x100_0000;
  }

  lemma ValueFour(c: seq<Byte>)
    requires |c| == 4
    ensures Value(c) == c[0] as nat * 0x100_0000 + c[1] as nat * 0x1_0000 + c[2] as nat * 0x100 + c[3] as nat
  {
    assert c[..3][..2] == c[..2] && c[..2][..1] == c[..1] && c[..1][..0] == [];
    ValueLast(c);
    ValueLast(c[..3]);
    ValueLast(c[..2]);
    ValueLast(c[..1]);
    assert Value([]) == 0;
    hide Value;
  }

  /** Below 2^32 blocks all counters are different. */
  lemma CountersDistinct(i: nat, j: nat)
    requires i < j < 0x1_0000_0000
    ensures Counter(i) != Counter(j)
  {
    CounterValue(i);
    CounterValue(j);
  }

  // ---------- key derivation ----------

  /** Ha(i) of section 5.4.3 of GB/T 32918.4: the hash of Z followed by the counter. */
  function Block(f: Hash, z: seq<Byte>, i: nat): Option<seq<Byte>> {
    f(z + Counter(i))
  }

  /** The counter is the four bytes of that value, behind Z. */
  lemma BlockIs(f: Hash, z: seq<Byte>, i: nat, ct: seq<Byte>)
    requires |ct| == 4 && Value(ct) == i % 0x1_0000_0000
    ensures Block(f, z, i) == f(z + ct)
  {
    CounterValue(i);
    ValueInjective(ct, Counter(i));
  }

  ghost predicate BlocksOk(f: Hash, z: seq<Byte>, n: nat) {
    forall i :: 1 <= i <= n ==> Block(f, z, i).Some?
  }

  /** The first n blocks in a row. */
  ghost function KeyStream(f: Hash, z: seq<Byte>, n: nat): (s: seq<Byte>)
    requires BlocksOk(f, z, n)
  {
    if n == 0 then [] else KeyStream(f, z, n - 1) + Block(f, z, n).value
  }

  /** Blocks the derivation asks for: as many as cover m bytes, and one when m is 0. */
  function BlocksFor(m: nat, h: nat): (n: nat)
    requires h > 0
    ensures n >= 1
  {
    if m <= h then 1 else 1 + BlocksFor(m - h, h)
  }

  lemma {:induction false} BlocksForCover(m: nat, h: nat)
    requires h > 0
    ensures m <= BlocksFor(m, h) * h
    ensures if m > 0 then (BlocksFor(m, h) - 1) * h < m else BlocksFor(m, h) == 1
  {
    if m > h {
      BlocksForCover(m - h, h);
      MulSucc(BlocksFor(m - h, h), h);
    }
  }

  lemma MulSucc(n: nat, h: nat)
    ensures (n + 1) * h == n * h + h
  {
  }

  lemma {:induction false} KeyStreamLength(f: Hash, h: nat, z: seq<Byte>, n: nat)
    requires HashOk(f, h) && BlocksOk(f, z, n)
    ensures |KeyStream(f, z, n)| == n * h
  {
    if n > 0 {
      BlockLength(f, h, z, n);
      KeyStreamLast(f, z, n);
      hide *;
      KeyStreamLength(f, h, z, n - 1);
      MulSucc(n - 1, h);
    }
  }

  lemma KeyStreamLast(f: Hash, z: seq<Byte>, n: nat)
    requires n > 0
    ensures BlocksOk(f, z, n) <==> BlocksOk(f, z, n - 1) && Block(f, z, n).Some?
    ensures BlocksOk(f, z, n) ==> KeyStream(f, z, n) == KeyStream(f, z, n - 1) + Block(f, z, n).value
  {
    hide Block;
  }

  lemma BlockLength(f: Hash, h: nat, z: seq<Byte>, i: nat)
    requires HashOk(f, h) && Block(f, z, i).Some?
    ensures |Block(f, z, i).value| == h
  {
  }

  /** The key of m bytes: a prefix of the block stream. */
  ghost function Key(f: Hash, h: nat, z: seq<Byte>, m: nat): (k: seq<Byte>)
    requires h > 0 && HashOk(f, h) && BlocksOk(f, z, BlocksFor(m, h))
    ensures |k| == m
  {
    KeyStreamLength(f, h, z, BlocksFor(m, h));
    BlocksForCover(m, h);
    KeyStream(f, z, BlocksFor(m, h))[..m]
  }

  /** The key is the length-m prefix of every block stream long enough to hold it. */
  lemma {:induction false} KeyIsPrefix(f: Hash, h: nat, z: seq<Byte>, m: nat, n: nat)
    requires h > 0 && HashOk(f, h) && n >= BlocksFor(m, h) && BlocksOk(f, z, n)
    ensures |KeyStream(f, z, n)| >= m && Key(f, h, z, m) == KeyStream(f, z, n)[..m]
    decreases n
  {
    hide HashOk, Block;
    KeyStreamLength(f, h, z, BlocksFor(m, h));
    BlocksForCover(m, h);
    if n > BlocksFor(m, h) {
      KeyIsPrefix(f, h, z, m, n - 1);
    }
  }

  lemma {:induction false} StreamAt(f: Hash, h: nat, z: seq<Byte>, n: nat, j: nat)
    requires h > 0 && HashOk(f, h) && BlocksOk(f, z, n) && j < n * h
    ensures |KeyStream(f, z, n)| == n * h && Block(f, z, j / h + 1).Some?
    ensures |Block(f, z, j / h + 1).value| == h && j % h < h
    ensures KeyStream(f, z, n)[j] == Block(f, z, j / h + 1).value[j % h]
    decreases n
  {
    hide *;
    KeyStreamLast(f, z, n);
    KeyStreamLength(f, h, z, n);
    KeyStreamLength(f, h, z, n - 1);
    BlockLength(f, h, z, n);
    MulSucc(n - 1, h);
    if j < (n - 1) * h {
      StreamAt(f, h, z, n - 1, j);
    } else {
      ModArith.DivModUnique(j, h, n - 1, j - (n - 1) * h);
    }
  }

  /** Byte j of the key is byte j mod h of the hash of Z and the four bytes of the counter j / h + 1, big-endian. */
  lemma KeyByte(f: Hash, h: nat, z: seq<Byte>, m: nat, j: nat, ct: seq<Byte>)
    requires h > 0 && HashOk(f, h) && BlocksOk(f, z, BlocksFor(m, h)) && j < m
    requires |ct| == 4 && Value(ct) == (j / h + 1) % 0x1_0000_0000
    ensures f(z + ct).Some? && |f(z + ct).value| == h && j % h < h
    ensures Key(f, h, z, m)[j] == f(z + ct).value[j % h]
  {
    hide *;
    BlocksForCover(m, h);
    KeyIs(f, h, z, m);
    StreamAt(f, h, z, BlocksFor(m, h), j);
    BlockIs(f, z, j / h + 1, ct);
  }

  /** sm2_kdf: fill out[..m] block by block. */
  method Kdf(out: array<Byte>, z: seq<Byte>, m: nat, f: Hash, h: nat, memOk: bool) returns (code: Code)
    requires m <= out.Length && HashOk(f, h)
    modifies out
    ensures code.Invalid? <==> h == 0
    ensures code.NoMemory? <==> h > 0 && !memOk
    ensures code.HashFailed? <==> h > 0 && memOk && !BlocksOk(f, z, BlocksFor(m, h))
    ensures code.Mismatch? <==> false
    ensures code.Success? ==> out[..m] == Key(f, h, z, m)
    ensures forall k :: m <= k < out.Length ==> out[k] == old(out[k])
  {
    hide *;
    if h == 0 {
      return Invalid;
    }
    if !memOk {
      return NoMemory;
    }
    var at: nat, left: nat, i: nat := 0, m, 0;
    KeyStreamStart(f, z);
    while true
      invariant at + left == m && BlocksFor(m, h) == i + BlocksFor(left, h)
      invariant BlocksOk(f, z, i) && out[..at] == KeyStream(f, z, i)
      invariant forall k :: m <= k < out.Length ==> out[k] == old(out[k])
      decreases left
    {
      i := i + 1;
      var t := Block(f, z, i);
      NextBlock(f, h, z, m, i - 1, left);
      if t.None? {
        return HashFailed;
      }
      if left >= h {
        Fill(out, at, t.value);
        at, left := at + h, left - h;
        if left == 0 {
          break;
        }
      } else {
        Fill(out, at, t.value[..left]);
        break;
      }
    }
    code := Success;
  }

  lemma KeyStreamStart(f: Hash, z: seq<Byte>)
    ensures BlocksOk(f, z, 0) && KeyStream(f, z, 0) == []
  {
  }

  /** One block more, of a derivation that has i blocks and left bytes to go. */
  lemma NextBlock(f: Hash, h: nat, z: seq<Byte>, m: nat, i: nat, left: nat)
    requires h > 0 && HashOk(f, h) && BlocksOk(f, z, i) && left <= m
    requires |KeyStream(f, z, i)| + left == m && BlocksFor(m, h) == i + BlocksFor(left, h)
    ensures BlocksOk(f, z, i + 1) <==> Block(f, z, i + 1).Some?
    ensures Block(f, z, i + 1).None? ==> !BlocksOk(f, z, BlocksFor(m, h))
    ensures left > h ==> BlocksFor(m, h) == i + 1 + BlocksFor(left - h, h)
    ensures Block(f, z, i + 1).Some? ==>
      var t := Block(f, z, i + 1).value;
      && |t| == h && KeyStream(f, z, i + 1) == KeyStream(f, z, i) + t
      && (left <= h ==> BlocksOk(f, z, BlocksFor(m, h)) && Key(f, h, z, m) == KeyStream(f, z, i) + t[..left])
  {
    hide *;
    KeyStreamLast(f, z, i + 1);
    BlocksForStep(left, h);
    MoreBlocks(f, z, i + 1, BlocksFor(m, h));
    if Block(f, z, i + 1).Some? {
      BlockLength(f, h, z, i + 1);
      if left <= h {
        KeyIs(f, h, z, m);
        var t := Block(f, z, i + 1).value;
        assert (KeyStream(f, z, i) + t)[..m] == KeyStream(f, z, i) + t[..left];
      }
    }
  }

  lemma KeyIs(f: Hash, h: nat, z: seq<Byte>, m: nat)
    requires h > 0 && HashOk(f, h) && BlocksOk(f, z, BlocksFor(m, h))
    ensures m <= |KeyStream(f, z, BlocksFor(m, h))| && Key(f, h, z, m) == KeyStream(f, z, BlocksFor(m, h))[..m]
  {
    KeyStreamLength(f, h, z, BlocksFor(m, h));
    BlocksForCover(m, h);
    hide HashOk, Block, BlocksOk, KeyStream, BlocksFor;
  }

  lemma BlocksForStep(m: nat, h: nat)
    requires h > 0
    ensures BlocksFor(m, h) == if m <= h then 1 else 1 + BlocksFor(m - h, h)
  {
  }

  lemma MoreBlocks(f: Hash, z: seq<Byte>, i: nat, n: nat)
    requires 1 <= i <= n
    ensures Block(f, z, i).None? ==> !BlocksOk(f, z, n)
  {
  }

  /** memcpy of bytes to out[at..]. */
  method Fill(out: array<Byte>, at: nat, bytes: seq<Byte>)
    requires at + |bytes| <= out.Length
    modifies out
    ensures out[..at + |bytes|] == old(out[..at]) + bytes
    ensures forall k :: at + |bytes| <= k < out.Length ==> out[k] == old(out[k])
  {
    ghost var was := out[..];
    var i := 0;
    while i < |bytes|
      invariant i <= |bytes|
      invariant forall k :: 0 <= k < i ==> out[at + k] == bytes[k]
      invariant forall k :: 0 <= k < out.Length && !(at <= k < at + i) ==> out[k] == was[k]
    {
      out[at + i] := bytes[i];
      i := i + 1;
    }
  }

  // ---------- encryption and decryption ----------

  datatype Cipher = Cipher(c2: seq<Byte>, c3: seq<Byte>)

  ghost function Masked(m: seq<Byte>, k: seq<Byte>): (r: seq<Byte>)
    requires |m| <= |k|
    ensures |r| == |m|
  {
    seq(|m|, i requires 0 <= i < |m| => m[i] ^ k[i])
  }

  lemma XorCancels(a: Byte, b: Byte)
    ensures (a ^ b) ^ b == a && a ^ b == b ^ a
  {
  }

  /** Bit j of a byte: shifting it to the front leaves an odd number. */
  predicate Bit(b: Byte, j: nat): (r: bool)
    requires j < 8
    ensures r <==> b >> j == ((b >> j) >> 1 << 1) + 1
  {
    (b >> j) & 1 == 1
  }

  /** A bit of the masked byte is set exactly when one of the two is. */
  lemma MaskBits(m: seq<Byte>, k: seq<Byte>, i: nat, j: nat)
    requires |m| <= |k| && i < |m| && j < 8
    ensures Bit(Masked(m, k)[i], j) <==> Bit(m[i], j) != Bit(k[i], j)
  {
    XorBit(m[i], k[i], j);
  }

  lemma XorBit(a: Byte, b: Byte, j: nat)
    requires j < 8
    ensures Bit(a ^ b, j) <==> Bit(a, j) != Bit(b, j)
  {
    assert ((a ^ b) >> j) & 1 == ((a >> j) & 1) ^ ((b >> j) & 1);
  }

  lemma MaskTwice(m: seq<Byte>, k: seq<Byte>)
    requires |m| == |k|
    ensures Masked(Masked(m, k), k) == m && Masked(m, k) == Masked(k, m)
  {
    forall i | 0 <= i < |m| ensures Masked(Masked(m, k), k)[i] == m[i] && Masked(m, k)[i] == Masked(k, m)[i] {
      XorCancels(m[i], k[i]);
    }
  }

  /** c is the encryption of m: masked with the derived key, checked by the hash of x2, m, y2. */
  ghost predicate Encrypts(f: Hash, h: nat, x: seq<Byte>, y: seq<Byte>, m: seq<Byte>, c: Cipher)
    requires h > 0 && HashOk(f, h)
  {
    && BlocksOk(f, x + y, BlocksFor(|m|, h))
    && c.c2 == Masked(m, Key(f, h, x + y, |m|))
    && f(x + m + y) == Some(c.c3)
  }

  /** Unmasking what was encrypted gives it back, so a ciphertext has one plaintext. */
  lemma EncryptsUnmasks(f: Hash, h: nat, x: seq<Byte>, y: seq<Byte>, m: seq<Byte>, c: Cipher)
    requires h > 0 && HashOk(f, h) && Encrypts(f, h, x, y, m, c)
    ensures |c.c2| == |m| && BlocksOk(f, x + y, BlocksFor(|c.c2|, h))
    ensures m == Masked(Key(f, h, x + y, |c.c2|), c.c2)
  {
    hide HashOk, BlocksOk, BlocksFor, Key;
    var k := Key(f, h, x + y, |m|);
    MaskTwice(m, k);
    MaskTwice(c.c2, k);
  }

  /** sm2_xor. */
  method XorInto(val1: array<Byte>, n: nat, val2: seq<Byte>)
    requires n <= val1.Length && n <= |val2|
    modifies val1
    ensures val1[..n] == Masked(old(val1[..n]), val2)
    ensures forall k :: n <= k < val1.Length ==> val1[k] == old(val1[k])
  {
    var i := 0;
    while i < n
      invariant 0 <= i <= n
      invariant forall k :: 0 <= k < i ==> val1[k] == old(val1[k]) ^ val2[k]
      invariant forall k :: i <= k < val1.Length ==> val1[k] == old(val1[k])
    {
      val1[i] := val1[i] ^ val2[i];
      i := i + 1;
    }
  }

  /** sm2_hash: the check value of x2, the message and y2. */
  method CheckValue(x: seq<Byte>, m: seq<Byte>, y: seq<Byte>, f: Hash, h: nat, memOk: bool)
    returns (code: Code, c3: seq<Byte>)
    ensures code.Invalid? <==> h == 0
    ensures code.NoMemory? <==> h > 0 && !memOk
    ensures code.HashFailed? <==> h > 0 && memOk && f(x + m + y).None?
    ensures code.Success? ==> f(x + m + y) == Some(c3)
    ensures !code.Mismatch?
  {
    c3 := [];
    if h == 0 {
      return Invalid, c3;
    }
    if !memOk {
      return NoMemory, c3;
    }
    var d := f(x + m + y);
    if d.None? {
      return HashFailed, c3;
    }
    return Success, d.value;
  }

  /** sm2_convert_enc_out: the check value first, then c2 in place. */
  method Encrypt(c2: array<Byte>, m: seq<Byte>, x: seq<Byte>, y: seq<Byte>, f: Hash, h: nat, mem1: bool, mem2: bool)
    returns (code: Code, c3: seq<Byte>)
    requires c2.Length == |m| && HashOk(f, h)
    modifies c2
    ensures code.Success? ==> h > 0 && Encrypts(f, h, x, y, m, Cipher(c2[..], c3))
    ensures code.Success? <==>
      && h > 0 && mem1 && mem2 && f(x + m + y).Some? && BlocksOk(f, x + y, BlocksFor(|m|, h))
  {
    hide *;
    code, c3 := CheckValue(x, m, y, f, h, mem1);
    if !code.Success? {
      return;
    }
    code := Kdf(c2, x + y, |m|, f, h, mem2);
    if !code.Success? {
      return;
    }
    assert c2[..|m|] == c2[..];
    XorInto(c2, |m|, m);
    assert c2[..|m|] == c2[..];
    EncryptsFrom(f, h, x, y, m, Cipher(c2[..], c3));
  }

  lemma EncryptsFrom(f: Hash, h: nat, x: seq<Byte>, y: seq<Byte>, m: seq<Byte>, c: Cipher)
    requires h > 0 && HashOk(f, h) && BlocksOk(f, x + y, BlocksFor(|m|, h))
    requires c.c2 == Masked(Key(f, h, x + y, |m|), m) && f(x + m + y) == Some(c.c3)
    ensures Encrypts(f, h, x, y, m, c)
  {
    hide HashOk, BlocksOk, BlocksFor, Key;
    MaskTwice(m, Key(f, h, x + y, |m|));
  }

  /**
  sm2_convert_dec_out. It accepts exactly the encryptions, and then returns the plaintext
  that was encrypted.
  */
  method Decrypt(out: array<Byte>, c: Cipher, x: seq<Byte>, y: seq<Byte>, f: Hash, h: nat, mem1: bool, mem2: bool)
    returns (code: Code)
    requires out.Length == |c.c2| && HashOk(f, h)
    modifies out
    ensures code.Success? ==> h > 0 && Encrypts(f, h, x, y, out[..], c)
    ensures h > 0 && mem1 && mem2 ==>
      forall m :: Encrypts(f, h, x, y, m, c) ==> code.Success? && out[..] == m
  {
    hide *;
    var n := |c.c2|;
    code := Kdf(out, x + y, n, f, h, mem1);
    if h > 0 && mem1 && mem2 {
      forall m | Encrypts(f, h, x, y, m, c)
        ensures code.Success? && m == Masked(out[..n], c.c2) && f(x + m + y) == Some(c.c3)
      {
        EncryptsUnmasks(f, h, x, y, m, c);
        EncryptsHash(f, h, x, y, m, c);
      }
    }
    if !code.Success? {
      return;
    }
    ghost var k := out[..n];
    XorInto(out, n, c.c2);
    assert out[..] == out[..n];
    var u;
    code, u := CheckValue(x, out[..], y, f, h, mem2);
    if !code.Success? {
      return;
    }
    if u != c.c3 {
      return Mismatch;
    }
    MaskTwice(c.c2, k);
    MaskTwice(out[..], k);
    EncryptsFrom(f, h, x, y, out[..], c);
  }

  lemma EncryptsHash(f: Hash, h: nat, x: seq<Byte>, y: seq<Byte>, m: seq<Byte>, c: Cipher)
    requires h > 0 && HashOk(f, h) && Encrypts(f, h, x, y, m, c)
    ensures f(x + m + y) == Some(c.c3)
  {
  }

  /** Decryption of an encryption with the same point accepts and returns the plaintext. */
  method EncryptThenDecrypt(m: seq<Byte>, x: seq<Byte>, y: seq<Byte>, f: Hash, h: nat)
    returns (code: Code, back: seq<Byte>)
    requires h > 0 && HashOk(f, h)
    ensures code.Success? <==> f(x + m + y).Some? && BlocksOk(f, x + y, BlocksFor(|m|, h))
    ensures code.Success? ==> back == m
  {
    hide *;
    var c2, out := new Byte[|m|](_ => 0), new Byte[|m|](_ => 0);
    var c3;
    back := [];
    code, c3 := Encrypt(c2, m, x, y, f, h, true, true);
    if code.Success? {
      code := Decrypt(out, Cipher(c2[..], c3), x, y, f, h, true, true);
      back := out[..];
    }
  }
}
