/** 32-bit words as JavaScript's bitwise operators see them, and their binary digits. */
module Bits {
  /** `v >>> k` and `v << k`, one position at a time. */
  function UShr(v: bv32, k: nat): bv32
    decreases k
  {
    if k == 0 then v else UShr(v >> 1, k - 1)
  }

  function Shl(v: bv32, k: nat): bv32
    decreases k
  {
    if k == 0 then v else Shl(v << 1, k - 1)
  }

  /** The last `n` binary digits, most significant first. */
  function LowBits(v: bv32, n: nat): (r: seq<bool>)
    ensures |r| == n
    decreases n
  {
    if n == 0 then [] else LowBits(v >> 1, n - 1) + [v & 1 == 1]
  }

  /** The number written by some binary digits. */
  function Num(bits: seq<bool>): nat {
    if bits == [] then 0
    else 2 * Num(bits[..|bits| - 1]) + (if bits[|bits| - 1] then 1 else 0)
  }

  /** An unsigned word as a number. */
  function ToNat(v: bv32): nat {
    Num(LowBits(v, 32))
  }

  function Zeros(n: nat): seq<bool> {
    seq(n, i => false)
  }

  function Pow2(k: nat): (r: nat)
    ensures r >= 1
  {
    if k == 0 then 1 else 2 * Pow2(k - 1)
  }

  lemma {:induction false} NumAppend(a: seq<bool>, b: seq<bool>)
    ensures Num(a + b) == Num(a) * Pow2(|b|) + Num(b)
    decreases |b|
  {
    if b == [] {
      assert a + b == a;
    } else {
      var init := b[..|b| - 1];
      assert (a + b)[..|a + b| - 1] == a + init;
      NumAppend(a, init);
      DoubleProduct(Num(a), Pow2(|init|));
    }
  }

  lemma DoubleProduct(x: nat, p: nat)
    ensures x * (2 * p) == 2 * (x * p)
  {
  }

  lemma {:induction false} NumBound(a: seq<bool>)
    ensures Num(a) < Pow2(|a|)
    decreases |a|
  {
    if a != [] { NumBound(a[..|a| - 1]); }
  }

  /** Digits are determined by the number they write. */
  lemma {:induction false} NumInjective(a: seq<bool>, b: seq<bool>)
    requires |a| == |b| && Num(a) == Num(b)
    ensures a == b
    decreases |a|
  {
    if a != [] {
      NumInjective(a[..|a| - 1], b[..|b| - 1]);
      assert a == a[..|a| - 1] + [a[|a| - 1]];
      assert b == b[..|b| - 1] + [b[|b| - 1]];
    }
  }

  lemma {:induction false} NumZeros(n: nat)
    ensures Num(Zeros(n)) == 0
  {
    if n > 0 {
      assert Zeros(n)[..n - 1] == Zeros(n - 1);
      NumZeros(n - 1);
    }
  }

  /** Shifting right by `k` drops the last `k` digits. */
  lemma {:induction false} LowBitsSplit(v: bv32, n: nat, k: nat)
    ensures LowBits(v, n + k) == LowBits(UShr(v, k), n) + LowBits(v, k)
    decreases k
  {
    if k == 0 {
      assert LowBits(v, n) + [] == LowBits(v, n);
    } else {
      LowBitsSplit(v >> 1, n, k - 1);
      var a, b, c := LowBits(UShr(v, k), n), LowBits(v >> 1, k - 1), [v & 1 == 1];
      assert (a + b) + c == a + (b + c);
    }
  }

  predicate OnesBelow(mask: bv32, n: nat)
    decreases n
  {
    n == 0 || (mask & 1 == 1 && OnesBelow(mask >> 1, n - 1))
  }

  /** A mask with ones in its last `n` places does not touch the last `n` digits. */
  lemma {:induction false} LowBitsMask(v: bv32, mask: bv32, n: nat)
    requires OnesBelow(mask, n)
    ensures LowBits(v & mask, n) == LowBits(v, n)
    decreases n
  {
    if n > 0 {
      MaskStep(v, mask);
      LowBitsMask(v >> 1, mask >> 1, n - 1);
    }
  }

  lemma MaskStep(v: bv32, mask: bv32)
    ensures (v & mask) >> 1 == (v >> 1) & (mask >> 1)
    ensures mask & 1 == 1 ==> (v & mask) & 1 == v & 1
  {
  }

  lemma {:induction false} LowBitsOfZero(n: nat)
    ensures LowBits(0, n) == Zeros(n)
  {
    if n > 0 {
      LowBitsOfZero(n - 1);
      assert Zeros(n) == Zeros(n - 1) + [false];
    }
  }

  /** The accumulator updates `(v << 8) | b` and `(v << 5) | q`. */
  function PushByte(v: bv32, b: bv8): bv32 {
    (v << 8) | (b as bv32)
  }

  function PushQuintet(v: bv32, q: bv32): bv32 {
    (v << 5) | q
  }

  /** `(v << 8) | b`: the digits of a byte are appended; older digits survive as far as they fit. */
  lemma AppendByte(v: bv32, b: bv32, n: nat)
    requires b < 256 && n <= 24
    ensures LowBits((v << 8) | b, n + 8) == LowBits(v, n) + LowBits(b, 8)
  {
    hide LowBits, UShr, OnesBelow;
    var x := (v << 8) | b;
    ByteFacts(v, b, x);
    LowBitsSplit(x, n, 8);
    UShr8(x);
    Ones24(n);
    LowBitsMask(v, 0x00FF_FFFF, n);
    Ones8();
    LowBitsMask(x, 0xFF, 8);
    LowBitsMask(b, 0xFF, 8);
  }

  lemma PushByteBits(v: bv32, b: bv8, n: nat)
    requires n <= 24
    ensures LowBits(PushByte(v, b), n + 8) == LowBits(v, n) + ByteBits(b)
  {
    hide LowBits;
    AppendByte(v, b as bv32, n);
  }

  lemma PushQuintetBits(v: bv32, q: bv32, n: nat)
    requires q < 32 && n <= 24
    ensures LowBits(PushQuintet(v, q), n + 5) == LowBits(v, n) + LowBits(q, 5)
  {
    hide LowBits;
    AppendQuintet(v, q, n);
  }

  lemma ByteFacts(v: bv32, b: bv32, x: bv32)
    requires b < 256 && x == (v << 8) | b
    ensures x >> 8 == v & 0x00FF_FFFF && x & 0xFF == b & 0xFF
  {
  }

  /** `(v << 5) | q`: the same for a group of five digits. */
  lemma AppendQuintet(v: bv32, q: bv32, n: nat)
    requires q < 32 && n <= 24
    ensures LowBits((v << 5) | q, n + 5) == LowBits(v, n) + LowBits(q, 5)
  {
    hide LowBits, UShr, OnesBelow;
    var x := (v << 5) | q;
    QuintetFacts(v, q, x);
    LowBitsSplit(x, n, 5);
    UShr5(x);
    Ones27(n);
    LowBitsMask(v, 0x07FF_FFFF, n);
    Ones5();
    LowBitsMask(x, 31, 5);
    LowBitsMask(q, 31, 5);
  }

  lemma QuintetFacts(v: bv32, q: bv32, x: bv32)
    requires q < 32 && x == (v << 5) | q
    ensures x >> 5 == v & 0x07FF_FFFF && x & 31 == q & 31
  {
  }

  lemma UShr5(v: bv32)
    ensures UShr(v, 5) == v >> 5
  {
    UShrStep(v, 5);
    UShrStep(v >> 1, 4);
    UShrStep((v >> 1) >> 1, 3);
    UShrStep(((v >> 1) >> 1) >> 1, 2);
    UShrStep((((v >> 1) >> 1) >> 1) >> 1, 1);
    hide UShr;
    ShiftFive(v);
  }

  lemma UShr8(v: bv32)
    ensures UShr(v, 8) == v >> 8
  {
    UShr5(v);
    UShrAdd(v, 5, 3);
    UShrStep(v >> 5, 3);
    UShrStep((v >> 5) >> 1, 2);
    UShrStep(((v >> 5) >> 1) >> 1, 1);
    hide UShr;
    ShiftThreeMore(v);
  }

  lemma UShrStep(v: bv32, k: nat)
    requires k > 0
    ensures UShr(v, k) == UShr(v >> 1, k - 1)
    ensures UShr(v, 0) == v && UShr(v >> 1, 0) == v >> 1
  {
  }

  lemma ShiftFive(v: bv32)
    ensures ((((v >> 1) >> 1) >> 1) >> 1) >> 1 == v >> 5
  {
  }

  lemma ShiftThreeMore(v: bv32)
    ensures (((v >> 5) >> 1) >> 1) >> 1 == v >> 8
  {
  }

  lemma {:induction false} UShrAdd(v: bv32, a: nat, b: nat)
    ensures UShr(v, a + b) == UShr(UShr(v, a), b)
    decreases a
  {
    if a > 0 { UShrAdd(v >> 1, a - 1, b); }
  }

  lemma Ones5()
    ensures OnesBelow(31, 5)
  {
    assert OnesBelow(1, 1) && OnesBelow(3, 2) && OnesBelow(7, 3) && OnesBelow(15, 4);
  }

  lemma Ones8()
    ensures OnesBelow(0xFF, 8)
  {
    Ones5();
    assert OnesBelow(0x3F, 6) && OnesBelow(0x7F, 7);
  }

  lemma {:induction false} OnesFewer(mask: bv32, n: nat, m: nat)
    requires OnesBelow(mask, n) && m <= n
    ensures OnesBelow(mask, m)
    decreases n
  {
    if m > 0 { OnesFewer(mask >> 1, n - 1, m - 1); }
  }

  lemma Ones24(n: nat)
    requires n <= 24
    ensures OnesBelow(0x00FF_FFFF, n)
  {
    Ones8();
    assert OnesBelow(0x1FF, 9) && OnesBelow(0x3FF, 10) && OnesBelow(0x7FF, 11) && OnesBelow(0xFFF, 12);
    assert OnesBelow(0x1FFF, 13) && OnesBelow(0x3FFF, 14) && OnesBelow(0x7FFF, 15) && OnesBelow(0xFFFF, 16);
    assert OnesBelow(0x1_FFFF, 17) && OnesBelow(0x3_FFFF, 18) && OnesBelow(0x7_FFFF, 19) && OnesBelow(0xF_FFFF, 20);
    assert OnesBelow(0x1F_FFFF, 21) && OnesBelow(0x3F_FFFF, 22) && OnesBelow(0x7F_FFFF, 23);
    assert OnesBelow(0xFF_FFFF, 24);
    OnesFewer(0x00FF_FFFF, 24, n);
  }

  lemma Ones27(n: nat)
    requires n <= 24
    ensures OnesBelow(0x07FF_FFFF, n)
  {
    Ones24(24);
    assert OnesBelow(0x1FF_FFFF, 25) && OnesBelow(0x3FF_FFFF, 26) && OnesBelow(0x7FF_FFFF, 27);
    OnesFewer(0x07FF_FFFF, 27, n);
  }

  // ------------------------------------------------- five-bit and eight-bit groups

  lemma LowBitsStep(v: bv32, n: nat)
    requires n >= 1
    ensures Num(LowBits(v, n)) == 2 * Num(LowBits(v >> 1, n - 1)) + (if v & 1 == 1 then 1 else 0)
  {
    var a := LowBits(v >> 1, n - 1);
    assert (a + [v & 1 == 1])[..n - 1] == a;
  }

  /** A small number converted to a word has that number's binary digits. */
  lemma {:induction false} SmallNumber(i: nat, n: nat)
    requires i < 256 && i < Pow2(n)
    ensures Num(LowBits(i as bv32, n)) == i
    decreases n
  {
    hide LowBits, Num;
    Halve(i);
    if n > 0 {
      SmallNumber(i / 2, n - 1);
      LowBitsStep(i as bv32, n);
    } else {
      NoDigits(i as bv32);
    }
  }

  lemma NoDigits(v: bv32)
    ensures Num(LowBits(v, 0)) == 0
  {
  }

  lemma Halve(i: nat)
    requires i < 256
    ensures (i as bv32) >> 1 == (i / 2) as bv32
    ensures (i as bv32) & 1 == 1 <==> i % 2 == 1
  {
  }

  /** Masking with 31 leaves the number written by the last five digits. */
  lemma ToNatOfQuintet(w: bv32)
    ensures ToNat(w & 31) == Num(LowBits(w, 5)) < 32
  {
    hide LowBits, UShr, OnesBelow;
    LowBitsSplit(w & 31, 27, 5);
    UShr5(w & 31);
    ShiftedOut31(w);
    LowBitsOfZero(27);
    Ones5();
    LowBitsMask(w, 31, 5);
    NumAppend(Zeros(27), LowBits(w, 5));
    NumZeros(27);
    NumBound(LowBits(w, 5));
    assert Pow2(5) == 32;
  }

  lemma ShiftedOut31(w: bv32)
    ensures (w & 31) >> 5 == 0
  {
  }

  /** The word written by some digits. */
  function WordFrom(bits: seq<bool>): bv32 {
    if bits == [] then 0
    else (WordFrom(bits[..|bits| - 1]) << 1) | (if bits[|bits| - 1] then 1 else 0)
  }

  lemma {:induction false} WordFromLowBits(v: bv32, n: nat)
    requires UShr(v, n) == 0
    ensures WordFrom(LowBits(v, n)) == v
    decreases n
  {
    if n > 0 {
      WordFromLowBits(v >> 1, n - 1);
      assert LowBits(v, n)[..n - 1] == LowBits(v >> 1, n - 1);
      LastDigit(v);
    }
  }

  lemma LastDigit(v: bv32)
    ensures ((v >> 1) << 1) | (if v & 1 == 1 then 1 else 0) == v
  {
  }

  function ByteFrom(bits: seq<bool>): bv8
    requires |bits| == 8
  {
    (WordFrom(bits) & 0xFF) as bv8
  }

  function ByteBits(b: bv8): seq<bool> {
    LowBits(b as bv32, 8)
  }

  lemma ByteFromByteBits(b: bv8)
    ensures ByteFrom(ByteBits(b)) == b
  {
    UShr8(b as bv32);
    WordFromLowBits(b as bv32, 8);
  }

  /** `w & 0xff` is the byte written by the last eight digits. */
  lemma ByteOfWord(w: bv32)
    ensures ByteBits((w & 0xFF) as bv8) == LowBits(w, 8)
  {
    hide LowBits, OnesBelow;
    Ones8();
    LowBitsMask(w, 0xFF, 8);
    ByteAndBack(w);
  }

  lemma ByteAndBack(w: bv32)
    ensures ((w & 0xFF) as bv8) as bv32 == w & 0xFF
  {
  }

  /** Shifting left appends zeros. */
  lemma {:induction false} LowBitsShl(v: bv32, n: nat, k: nat)
    requires n + k <= 24
    ensures LowBits(Shl(v, k), n + k) == LowBits(v, n) + Zeros(k)
    decreases k
  {
    if k == 0 {
      assert LowBits(v, n) + Zeros(0) == LowBits(v, n);
    } else {
      LowBitsShl(v << 1, n + 1, k - 1);
      LowBitsDouble(v, n);
      assert LowBits(v, n) + [false] + Zeros(k - 1) == LowBits(v, n) + Zeros(k);
    }
  }

  lemma LowBitsDouble(v: bv32, n: nat)
    requires n <= 24
    ensures LowBits(v << 1, n + 1) == LowBits(v, n) + [false]
  {
    Ones24(n);
    hide OnesBelow;
    DoubleFacts(v);
    LowBitsMask((v << 1) >> 1, 0x00FF_FFFF, n);
    LowBitsMask(v, 0x00FF_FFFF, n);
  }

  lemma DoubleFacts(v: bv32)
    ensures (v << 1) & 1 == 0 && ((v << 1) >> 1) & 0x00FF_FFFF == v & 0x00FF_FFFF
  {
  }
}
