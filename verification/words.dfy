/** 64-bit machine words as sequences of bits, lowest bit first, with the operators that the
    frame bitmap and the slab colour maps apply to them. `Value` gives the number a word stands
    for; the lemmas show that the bitwise definitions are the machine's arithmetic ones. */
module Words {


  type Word = w: seq<bool> | |w| == 64 witness seq(64, _ => false)

  function Ones(): Word {
    seq(64, _ => true)
  }

  /** `x >> k` */
  function Shr(x: Word, k: nat): Word {
    seq(64, i requires 0 <= i => i + k < 64 && x[i + k])
  }

  /** `x << k` */
  function Shl(x: Word, k: nat): Word {
    seq(64, i requires 0 <= i < 64 => i >= k && x[i - k])
  }

  function Or(x: Word, y: Word): Word {
    seq(64, i requires 0 <= i < 64 => x[i] || y[i])
  }

  function And(x: Word, y: Word): Word {
    seq(64, i requires 0 <= i < 64 => x[i] && y[i])
  }

  function Xor(x: Word, y: Word): Word {
    seq(64, i requires 0 <= i < 64 => x[i] != y[i])
  }

  function Not(x: Word): Word {
    seq(64, i requires 0 <= i < 64 => !x[i])
  }

  predicate IsZero(x: Word) {
    x == seq(64, _ => false)
  }

  /** `1UL << k` */
  function Single(k: nat): Word
    requires k < 64
  {
    seq(64, i => i == k)
  }

  /** `(1UL << n) - 1` */
  function LowMask(n: nat): Word
    requires n < 64
  {
    seq(64, i => i < n)
  }

  // ---- the number a bit sequence stands for ----

  function Pow2(n: nat): (p: nat)
    ensures p > 0
  {
    if n == 0 then 1 else 2 * Pow2(n - 1)
  }

  function Value(w: seq<bool>): nat {
    if w == [] then 0 else (if w[0] then 1 else 0) + 2 * Value(w[1..])
  }

  lemma {:induction false} ValueOfZeros(w: seq<bool>)
    requires forall i :: 0 <= i < |w| ==> !w[i]
    ensures Value(w) == 0
  {
    if w != [] {
      ValueOfZeros(w[1..]);
    }
  }

  lemma {:induction false} ValueOfSingle(w: seq<bool>, k: nat)
    requires k < |w| && forall i :: 0 <= i < |w| ==> w[i] == (i == k)
    ensures Value(w) == Pow2(k)
  {
    if k == 0 {
      ValueOfZeros(w[1..]);
    } else {
      ValueOfSingle(w[1..], k - 1);
    }
  }

  lemma {:induction false} ValueOfMask(w: seq<bool>, n: nat)
    requires n <= |w| && forall i :: 0 <= i < |w| ==> w[i] == (i < n)
    ensures Value(w) == Pow2(n) - 1
  {
    if n == 0 {
      ValueOfZeros(w);
    } else {
      ValueOfMask(w[1..], n - 1);
    }
  }

  /** The mask that `alloc_pages` builds by subtracting one from a shifted one. */
  lemma MaskIsShiftedOneMinusOne(n: nat)
    requires n < 64
    ensures Value(LowMask(n)) == Value(Single(n)) - 1
  {
    ValueOfMask(LowMask(n), n);
    ValueOfSingle(Single(n), n);
  }

  lemma {:induction false} ValueOfConcat(a: seq<bool>, b: seq<bool>)
    ensures Value(a + b) == Value(a) + Pow2(|a|) * Value(b)
    ensures Value(a) < Pow2(|a|)
  {
    if a == [] {
      assert a + b == b;
    } else {
      var rest := Value(a[1..]);
      var p, v := Pow2(|a| - 1), Value(b);
      assert (a + b)[1..] == a[1..] + b;
      ValueOfConcat(a[1..], b);
      assert Value(a + b) == (if a[0] then 1 else 0) + 2 * (rest + p * v);
      Regroup(p, v);
    }
  }

  lemma Regroup(p: nat, v: nat)
    ensures 2 * p * v == 2 * (p * v)
  {
  }

  lemma DivideByPower(q: nat, p: nat, r: nat)
    requires r < p
    ensures (r + p * q) / p == q && (r + p * q) % p == r
  {
    var n := r + p * q;
    var d := q - n / p;
    assert p * d == n % p - r by {
      assert p * d == p * q - p * (n / p);
      assert n == p * (n / p) + n % p;
    }
    SmallMultiple(p, d);
  }

  lemma SmallMultiple(p: int, d: int)
    requires -p < p * d < p
    ensures d == 0
  {
  }

  /** A right shift is a division by a power of two. */
  lemma ShrDivides(x: Word, k: nat)
    requires k < 64
    ensures Value(Shr(x, k)) == Value(x) / Pow2(k)
  {
    assert x == x[..k] + x[k..];
    ValueOfConcat(x[..k], x[k..]);
    DivideByPower(Value(x[k..]), Pow2(k), Value(x[..k]));
    var zeros := seq(k, _ => false);
    assert Shr(x, k) == x[k..] + zeros;
    ValueOfConcat(x[k..], zeros);
    ValueOfZeros(zeros);
  }

  /** A left shift multiplies by a power of two and drops what leaves the word. */
  lemma ShlMultiplies(x: Word, k: nat)
    requires k < 64
    ensures Value(Shl(x, k)) == (Value(x) * Pow2(k)) % Pow2(|x|)
  {
    var l, m, h, p := ShlParts(x, k);
    ShiftOut(l, m, h, p);
  }

  lemma ShlParts(x: Word, k: nat) returns (l: nat, m: nat, h: nat, p: nat)
    requires k < 64
    ensures l < m && p > 0 && p == Pow2(k) && Pow2(|x|) == m * p
    ensures Value(x) == l + m * h && Value(Shl(x, k)) == p * l
  {
    var keep := |x| - k;
    var low, high := x[..keep], x[keep..];
    l, m, h, p := Value(low), Pow2(keep), Value(high), Pow2(k);
    assert x == low + high;
    ValueOfConcat(low, high);
    PowerSplits(keep, k);
    var zeros := seq(k, _ => false);
    assert Shl(x, k) == zeros + low;
    ValueOfConcat(zeros, low);
    ValueOfZeros(zeros);
  }

  /** The high part of a shifted word is a multiple of the word size. */
  lemma ShiftOut(l: nat, m: nat, h: nat, p: nat)
    requires l < m && p > 0
    ensures m * p > 0 && ((l + m * h) * p) % (m * p) == l * p
  {
    Distribute(l, m, h, p);
    Scale(l, m, p);
    DivideByPower(h, m * p, l * p);
  }

  lemma Distribute(a: nat, m: nat, b: nat, p: nat)
    ensures (a + m * b) * p == a * p + m * p * b
  {
  }

  lemma Scale(a: nat, m: nat, p: nat)
    requires a < m && p > 0
    ensures a * p < m * p
  {
  }

  lemma {:induction false} PowerSplits(m: nat, n: nat)
    ensures Pow2(m + n) == Pow2(m) * Pow2(n)
  {
    if m > 0 {
      PowerSplits(m - 1, n);
    }
  }

  // ---- arrays of words as one long row of bits ----

  /** Bit `i` of a bitmap: bit `i % 64` of word `i >> 6`. */
  predicate Bit(words: seq<Word>, i: nat)
    requires i < 64 * |words|
  {
    words[i / 64][i % 64]
  }

  function WithBit(words: seq<Word>, i: nat, b: bool): (r: seq<Word>)
    requires i < 64 * |words|
    ensures |r| == |words|
  {
    var w: Word := words[i / 64][i % 64 := b];
    words[i / 64 := w]
  }

  lemma WithBitBits(words: seq<Word>, i: nat, b: bool)
    requires i < 64 * |words|
    ensures forall j: nat :: j < 64 * |words| ==>
              Bit(WithBit(words, i, b), j) == if j == i then b else Bit(words, j)
  {
  }

  /** `word |= 1UL << k` sets one bit, `word &= ~(1UL << k)` clears it and
      `word ^= 1UL << k` flips it. */
  lemma BitOperators(w: Word, k: nat)
    requires k < 64
    ensures Or(w, Single(k)) == w[k := true]
    ensures And(w, Not(Single(k))) == w[k := false]
    ensures Xor(w, Single(k)) == w[k := !w[k]]
  {
  }

  /** The number of clear bits in `[lo, hi)`. */
  ghost function ClearBits(words: seq<Word>, lo: nat, hi: nat): (n: nat)
    requires lo <= hi <= 64 * |words|
    ensures n <= hi - lo
    decreases hi
  {
    if lo == hi then 0
    else ClearBits(words, lo, hi - 1) + if Bit(words, hi - 1) then 0 else 1
  }

  lemma {:induction false} ClearBitsFrame(a: seq<Word>, b: seq<Word>, lo: nat, hi: nat)
    requires lo <= hi <= 64 * |a| && |a| == |b|
    requires forall i: nat :: lo <= i < hi ==> Bit(a, i) == Bit(b, i)
    ensures ClearBits(a, lo, hi) == ClearBits(b, lo, hi)
    decreases hi
  {
    if lo < hi {
      ClearBitsFrame(a, b, lo, hi - 1);
    }
  }

  /** Flipping one bit moves the count by exactly one. */
  lemma {:induction false} ClearBitsFlip(words: seq<Word>, lo: nat, hi: nat, i: nat, b: bool)
    requires lo <= i < hi <= 64 * |words| && Bit(words, i) == !b
    ensures ClearBits(WithBit(words, i, b), lo, hi) == ClearBits(words, lo, hi) + if b then -1 else 1
    decreases hi
  {
    WithBitBits(words, i, b);
    if i == hi - 1 {
      ClearBitsFrame(words, WithBit(words, i, b), lo, hi - 1);
    } else {
      ClearBitsFlip(words, lo, hi - 1, i, b);
    }
  }

  /** The count is positive exactly when some bit is clear. */
  lemma {:induction false} ClearBitsPositive(words: seq<Word>, lo: nat, hi: nat)
    requires lo <= hi <= 64 * |words|
    ensures ClearBits(words, lo, hi) > 0 <==> exists i: nat :: lo <= i < hi && !Bit(words, i)
    decreases hi
  {
    if lo < hi {
      ClearBitsPositive(words, lo, hi - 1);
    }
  }

  lemma {:induction false} ClearBitsAllClear(words: seq<Word>, lo: nat, hi: nat)
    requires lo <= hi <= 64 * |words|
    requires forall i: nat :: lo <= i < hi ==> !Bit(words, i)
    ensures ClearBits(words, lo, hi) == hi - lo
    decreases hi
  {
    if lo < hi {
      ClearBitsAllClear(words, lo, hi - 1);
    }
  }

  lemma {:induction false} ClearBitsSplit(words: seq<Word>, lo: nat, mid: nat, hi: nat)
    requires lo <= mid <= hi <= 64 * |words|
    ensures ClearBits(words, lo, hi) == ClearBits(words, lo, mid) + ClearBits(words, mid, hi)
    decreases hi
  {
    if mid < hi {
      ClearBitsSplit(words, lo, mid, hi - 1);
    }
  }

  /** A stretch of clear bits inside the range is a lower bound on the count. */
  lemma RunNeedsClearBits(words: seq<Word>, lo: nat, hi: nat, start: nat, n: nat)
    requires lo <= start && start + n <= hi <= 64 * |words|
    requires forall i: nat :: start <= i < start + n ==> !Bit(words, i)
    ensures ClearBits(words, lo, hi) >= n
  {
    ClearBitsSplit(words, lo, start, hi);
    ClearBitsSplit(words, start, start + n, hi);
    ClearBitsAllClear(words, start, start + n);
  }
}
