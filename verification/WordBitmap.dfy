/**
The word-level bitmap of wd_mempool.c: 64-bit words, the binary find-first-set,
and the masked word-at-a-time search, proved equal to a bit-by-bit scan.

A machine word is written out as its 64 bits, least significant first, and the
C operators &, |, ^, ~, << and >> are defined on that form.
*/
module WordBitmap {
  const WORD: nat := 64

  type Word = w: seq<bool> | |w| == WORD witness seq(WORD, _ => false)

  function ZeroWord(): (r: Word) { seq(WORD, _ => false) }
  function AllOnes(): (r: Word) { seq(WORD, _ => true) }
  function And(a: Word, b: Word): (r: Word) { seq(WORD, i requires 0 <= i < WORD => a[i] && b[i]) }
  function Or(a: Word, b: Word): (r: Word) { seq(WORD, i requires 0 <= i < WORD => a[i] || b[i]) }
  function Xor(a: Word, b: Word): (r: Word) { seq(WORD, i requires 0 <= i < WORD => a[i] != b[i]) }
  function Not(a: Word): (r: Word) { seq(WORD, i requires 0 <= i < WORD => !a[i]) }
  function Shl(a: Word, n: nat): (r: Word) { seq(WORD, i requires 0 <= i < WORD => i >= n && a[i - n]) }
  function Shr(a: Word, n: nat): (r: Word) { seq(WORD, i requires 0 <= i < WORD => i + n < WORD && a[i + n]) }

  /** The constants 0x1, 0x3, 0xf, 0xff, 0xffff and 0xffffffff: n low bits set. */
  function LowBits(n: nat): (r: Word) { seq(WORD, i requires 0 <= i < WORD => i < n) }
  function One(): (r: Word) { LowBits(1) }

  /** BIT_MASK and BITMAP_FIRST_WORD_MASK. */
  function BitMask(nr: nat): (r: Word) { Shl(One(), nr % WORD) }
  function FirstWordMask(start: nat): (r: Word) { Shl(AllOnes(), start % WORD) }

  // ---------- find first set ----------

  /** Facts kept between the halvings of wd_ffs: num low bits were skipped, the first set bit is in the next c. */
  ghost predicate Narrowed(target: Word, word: Word, num: nat, c: nat) {
    && num + c <= WORD
    && (forall k :: 0 <= k < num ==> !target[k])
    && (forall k :: 0 <= k < WORD - num ==> word[k] == target[num + k])
    && exists k :: 0 <= k < c && word[k]
  }

  lemma HalveStep(target: Word, word: Word, num: nat, c: nat)
    requires Narrowed(target, word, num, 2 * c) && c > 0
    ensures And(word, LowBits(c)) == ZeroWord() ==> Narrowed(target, Shr(word, c), num + c, c)
    ensures And(word, LowBits(c)) != ZeroWord() ==> Narrowed(target, word, num, c)
  {
    var low := And(word, LowBits(c));
    if low == ZeroWord() {
      forall k | 0 <= k < c ensures !word[k] {
        assert low[k] == ZeroWord()[k];
      }
      forall k | num <= k < num + c ensures !target[k] {
        assert word[k - num] == target[num + (k - num)];
      }
      var k :| 0 <= k < 2 * c && word[k];
      assert Shr(word, c)[k - c];
    } else {
      assert !(forall k :: 0 <= k < c ==> !word[k]) by {
        assert (forall k :: 0 <= k < c ==> !word[k]) ==> low == ZeroWord();
      }
    }
  }

  /** One `if ((word & mask) == 0)` stage of wd_ffs. */
  method Halve(ghost target: Word, word: Word, num: nat, c: nat) returns (word': Word, num': nat)
    requires Narrowed(target, word, num, 2 * c) && c > 0
    ensures Narrowed(target, word', num', c)
  {
    HalveStep(target, word, num, c);
    word', num' := word, num;
    if And(word, LowBits(c)) == ZeroWord() {
      num' := num + c;
      word' := Shr(word, c);
    }
  }

  /** wd_ffs: the lowest set bit of a non-zero word, by halving. */
  method Ffs(target: Word) returns (num: nat)
    requires target != ZeroWord()
    ensures num < WORD && target[num]
    ensures forall k :: 0 <= k < num ==> !target[k]
  {
    var word := target;
    num := 0;
    assert exists k :: 0 <= k < 64 && word[k] by {
      assert (forall k :: 0 <= k < WORD ==> !target[k]) ==> target == ZeroWord();
    }
    word, num := Halve(target, word, num, 32);
    word, num := Halve(target, word, num, 16);
    word, num := Halve(target, word, num, 8);
    word, num := Halve(target, word, num, 4);
    word, num := Halve(target, word, num, 2);
    word, num := Halve(target, word, num, 1);
    assert word[0] == target[num + 0];
  }

  // ---------- the map ----------

  /** Whether bit p of the map, each word combined with invert, is set. */
  predicate Hit(words: seq<Word>, invert: Word, p: nat)
    requires p / WORD < |words|
  {
    words[p / WORD][p % WORD] != invert[p % WORD]
  }

  /** The reference: look at one bit after another. */
  function LinearScan(words: seq<Word>, bits: nat, start: nat, invert: Word): (r: nat)
    requires bits <= |words| * WORD
    ensures start <= bits ==> start <= r <= bits
    ensures start > bits ==> r == bits
    decreases bits - start
  {
    if start >= bits then bits
    else if Hit(words, invert, start) then start
    else LinearScan(words, bits, start + 1, invert)
  }

  /** It ends at the first hit from the start on, or at the end of the map. */
  lemma {:induction false} LinearScanIs(words: seq<Word>, bits: nat, start: nat, invert: Word)
    requires bits <= |words| * WORD
    ensures var r := LinearScan(words, bits, start, invert);
      && (r < bits ==> Hit(words, invert, r))
      && forall p :: start <= p < r && p < bits ==> !Hit(words, invert, p)
    decreases bits - start
  {
    if start < bits && !Hit(words, invert, start) {
      LinearScanIs(words, bits, start + 1, invert);
    }
  }

  lemma {:induction false} ScanSkips(words: seq<Word>, bits: nat, start: nat, stop: nat, invert: Word)
    requires bits <= |words| * WORD && start <= stop
    requires forall p :: start <= p < stop && p < bits ==> !Hit(words, invert, p)
    ensures LinearScan(words, bits, start, invert) == LinearScan(words, bits, stop, invert)
    decreases stop - start
  {
    if start < stop && start < bits {
      ScanSkips(words, bits, start + 1, stop, invert);
    }
  }

  /** Memory as the search reads it: the word just past the map holds anything. */
  function WordAt(words: seq<Word>, guard: Word, i: nat): (w: Word) {
    if i < |words| then words[i] else guard
  }

  /** tmp shows, for the word at position start, the hits not before begin. */
  ghost predicate Shows(tmp: Word, words: seq<Word>, guard: Word, invert: Word, start: nat, begin: nat) {
    forall k :: 0 <= k < WORD ==>
      tmp[k] == (begin <= start + k && WordAt(words, guard, start / WORD)[k] != invert[k])
  }

  lemma ZeroMeansNoHit(tmp: Word, words: seq<Word>, guard: Word, invert: Word, start: nat, begin: nat, p: nat)
    requires start % WORD == 0 && start / WORD < |words|
    requires Shows(tmp, words, guard, invert, start, begin) && tmp == ZeroWord()
    requires begin <= p && start <= p < start + WORD
    ensures p / WORD < |words| && !Hit(words, invert, p)
  {
    assert !tmp[p - start];
    assert p / WORD == start / WORD && p % WORD == p - start;
  }

  /**
  _find_next_bit: the word scan returns what the bit-by-bit scan returns, whatever
  the guard word holds.  The scan may read that word because it stops only when
  start exceeds bits.
  */
  method FindNextBit(words: seq<Word>, guard: Word, bits: nat, begin: nat, invert: Word) returns (r: nat)
    requires |words| == (bits + WORD - 1) / WORD
    ensures r == LinearScan(words, bits, begin, invert)
  {
    hide LinearScan;
    var start := begin;
    ScanAt(words, bits, bits, invert);
    if start >= bits {
      ScanAt(words, bits, start, invert);
      return bits;
    }
    var tmp := WordAt(words, guard, start / WORD);
    tmp := Xor(tmp, invert);
    tmp := And(tmp, FirstWordMask(start));
    start := start - start % WORD;
    while tmp == ZeroWord()
      invariant start % WORD == 0 && start <= bits
      invariant Shows(tmp, words, guard, invert, start, begin)
      invariant forall p :: begin <= p < start && p < bits ==> !Hit(words, invert, p)
      decreases bits - start
    {
      forall p | begin <= p < start + WORD && p < bits ensures !Hit(words, invert, p) {
        if p >= start { ZeroMeansNoHit(tmp, words, guard, invert, start, begin, p); }
      }
      start := start + WORD;
      if start > bits {
        ScanSkips(words, bits, begin, bits, invert);
        return bits;
      }
      tmp := WordAt(words, guard, start / WORD);
      tmp := Xor(tmp, invert);
    }
    var n := Ffs(tmp);
    r := if start + n < bits then start + n else bits;
    forall p | begin <= p < r ensures !Hit(words, invert, p) {
      if p >= start {
        assert !tmp[p - start];
        assert p / WORD == start / WORD && p % WORD == p - start;
      }
    }
    ScanSkips(words, bits, begin, r, invert);
    if r < bits {
      assert r / WORD == start / WORD && r % WORD == n;
      ScanAt(words, bits, r, invert);
    }
  }

  /** The scan stops where it stands on a hit, and at the end. */
  lemma ScanAt(words: seq<Word>, bits: nat, start: nat, invert: Word)
    requires bits <= |words| * WORD
    ensures start >= bits ==> LinearScan(words, bits, start, invert) == bits
    ensures start < bits && Hit(words, invert, start) ==> LinearScan(words, bits, start, invert) == start
  {
  }

  /** The first clear bit at or after start, or the length when there is none. */
  function NextZero(b: seq<bool>, start: nat): (r: nat)
    ensures start <= |b| ==> start <= r <= |b|
    ensures r < |b| ==> !b[r]
    ensures forall p :: start <= p < r && p < |b| ==> b[p]
    ensures start > |b| ==> r == |b|
    decreases |b| - start
  {
    if start >= |b| then |b| else if !b[start] then start else NextZero(b, start + 1)
  }

  lemma {:induction false} ScanIsNextZero(words: seq<Word>, b: seq<bool>, start: nat)
    requires |b| <= |words| * WORD
    requires forall p :: 0 <= p < |b| ==> b[p] == words[p / WORD][p % WORD]
    ensures LinearScan(words, |b|, start, AllOnes()) == NextZero(b, start)
    decreases |b| - start
  {
    if start < |b| { ScanIsNextZero(words, b, start + 1); }
  }

  lemma SameWordSameBit(p: nat, q: nat)
    ensures p / WORD == q / WORD && p % WORD == q % WORD <==> p == q
  {
  }

  /** struct bitmap with its words updated in place. */
  class Bitmap {
    const words: array<Word>
    const bits: nat
    /** Whatever lies in memory behind the last word. */
    const guard: Word
    ghost var contents: seq<bool>

    ghost predicate Valid()
      reads this, words
    {
      && |contents| == bits && words.Length == (bits + WORD - 1) / WORD
      && forall p :: 0 <= p < bits ==> contents[p] == words[p / WORD][p % WORD]
    }

    constructor (bits: nat, guard: Word)
      ensures Valid() && fresh(words) && this.bits == bits
      ensures contents == seq(bits, _ => false)
    {
      this.bits := bits;
      this.guard := guard;
      words := new Word[(bits + WORD - 1) / WORD](_ => ZeroWord());
      contents := seq(bits, _ => false);
    }

    method SetBit(pos: nat)
      requires Valid() && pos < bits
      modifies this, words
      ensures Valid() && contents == old(contents)[pos := true]
    {
      words[pos / WORD] := Or(words[pos / WORD], BitMask(pos));
      contents := contents[pos := true];
      forall p | 0 <= p < bits ensures contents[p] == words[p / WORD][p % WORD] {
        SameWordSameBit(p, pos);
      }
    }

    method ClearBit(pos: nat)
      requires Valid() && pos < bits
      modifies this, words
      ensures Valid() && contents == old(contents)[pos := false]
    {
      words[pos / WORD] := And(words[pos / WORD], Not(BitMask(pos)));
      contents := contents[pos := false];
      forall p | 0 <= p < bits ensures contents[p] == words[p / WORD][p % WORD] {
        SameWordSameBit(p, pos);
      }
    }

    /** test_bit answers whether the bit is clear. */
    method TestBit(nr: nat) returns (clear: bool)
      requires Valid() && nr < bits
      ensures clear == !contents[nr]
    {
      var hit := And(words[nr / WORD], BitMask(nr));
      clear := hit == ZeroWord();
      if !contents[nr] {
        assert hit == ZeroWord();
      } else {
        assert hit[nr % WORD];
      }
    }

    method FindNextZeroBit(start: nat) returns (r: nat)
      requires Valid()
      ensures r == NextZero(contents, start)
    {
      r := FindNextBit(words[..], guard, bits, start, AllOnes());
      ScanIsNextZero(words[..], contents, start);
    }
  }
}
