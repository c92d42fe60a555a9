/** The bit tricks of src/ctph.c (`rightmost`, `leftmost`) that turn the size estimate into the
    first block size. */
module BlockStart {
  import opened Words

  function Rightmost(v: bv64): bv64 {
    v & (0 - v)
  }

  /** `__builtin_bswap64` */
  function Bswap64(v: bv64): bv64 {
    ((v & 0xff) << 56) | ((v & 0xff00) << 40) | ((v & 0xff0000) << 24) | ((v & 0xff000000) << 8)
    | ((v >> 8) & 0xff000000) | ((v >> 24) & 0xff0000) | ((v >> 40) & 0xff00) | ((v >> 56) & 0xff)
  }

  function Leftmost(v: bv64): bv64 {
    Bswap64(Rightmost(Bswap64(v)))
  }

  predicate SingleBit(r: bv64) {
    r != 0 && r & (r - 1) == 0
  }

  /** `r` is what the comment on `leftmost` promises: the highest bit that is set in `v`. */
  predicate IsTopBit(r: bv64, v: bv64) {
    SingleBit(r) && r <= v && v ^ r < r
  }

  /** The highest byte of `v` that is not zero. */
  function TopByte(v: bv64): bv64
    decreases v
  {
    if v >> 8 == 0 then v else TopByte(v >> 8)
  }

  lemma LeftmostIsSingleBit(v: bv64)
    requires v != 0
    ensures SingleBit(Leftmost(v))
  {
    BswapNonzero(v);
    RightmostIsSingleBit(Bswap64(v));
    BswapKeepsSingleBit(Rightmost(Bswap64(v)));
  }

  /** The bit found is one of the bits of `v`, and it is less than eight places below the top. */
  lemma LeftmostIsClose(v: bv64)
    requires v != 0
    ensures Leftmost(v) <= v && v >> 8 < Leftmost(v)
  {
  }

  lemma BswapNonzero(v: bv64)
    requires v != 0
    ensures Bswap64(v) != 0
  {
  }

  lemma RightmostIsSingleBit(v: bv64)
    requires v != 0
    ensures SingleBit(Rightmost(v))
  {
  }

  lemma BswapKeepsSingleBit(r: bv64)
    requires SingleBit(r)
    ensures SingleBit(Bswap64(r))
  {
  }

  /** `leftmost` isolates the lowest bit of the highest non-zero byte, so it keeps its promise
      exactly when that byte has one bit set. */
  lemma {:induction false} LeftmostIsTopBitIff(v: bv64)
    requires v != 0
    ensures IsTopBit(Leftmost(v), v) <==> SingleBit(TopByte(v))
    decreases v
  {
    if v >> 8 == 0 {
      LeftmostOfByte(v);
    } else {
      LeftmostIsTopBitIff(v >> 8);
      hide Leftmost, SingleBit, IsTopBit;
      TopBitFollows(v, v >> 8);
    }
  }

  lemma TopBitFollows(v: bv64, u: bv64)
    requires u == v >> 8 && u != 0
    ensures IsTopBit(Leftmost(v), v) <==> IsTopBit(Leftmost(u), u)
  {
    hide Bswap64, Rightmost, IsTopBit, SingleBit;
    var w, x := Bswap64(v), Bswap64(u);
    var r, q := Rightmost(w), Rightmost(x);
    LeftmostShift(v, u, w, x, r, q);
    TopBitShift(v, u, Bswap64(r), Bswap64(q));
  }

  /** Dropping the lowest byte of a word that has another one shifts its leftmost bit along. The
      swapped words and their rightmost bits are named, to keep the solver's steps apart. */
  lemma LeftmostShift(v: bv64, u: bv64, w: bv64, x: bv64, r: bv64, q: bv64)
    requires u == v >> 8 && u != 0 && w == Bswap64(v) && x == Bswap64(u)
    requires r == Rightmost(w) && q == Rightmost(x)
    ensures Bswap64(r) == Bswap64(q) << 8 && Bswap64(q) >> 56 == 0
  {
    SwappedWordsShift(v, u, w, x);
    RightmostShift(w, x);
    BswapShift(r, q);
  }

  lemma LeftmostMissesTopBitOfThree()
    ensures Leftmost(3) == 1 && !IsTopBit(Leftmost(3), 3)
  {
  }

  lemma LeftmostOfByte(v: bv64)
    requires v >> 8 == 0 && v != 0
    ensures IsTopBit(Leftmost(v), v) <==> SingleBit(v)
  {
    assert Leftmost(v) == Rightmost(v);
  }

  lemma TopBitShift(v: bv64, u: bv64, l: bv64, r: bv64)
    requires u == v >> 8 && l == r << 8 && r >> 56 == 0
    ensures IsTopBit(l, v) <==> IsTopBit(r, u)
  {
    SingleBitShift(r);
    OrderShift(v, r);
    RestShift(v, r);
  }

  lemma SingleBitShift(r: bv64)
    requires r >> 56 == 0
    ensures SingleBit(r << 8) <==> SingleBit(r)
  {
  }

  lemma OrderShift(v: bv64, r: bv64)
    requires r >> 56 == 0
    ensures r << 8 <= v <==> r <= v >> 8
  {
  }

  lemma RestShift(v: bv64, r: bv64)
    requires r >> 56 == 0
    ensures v ^ (r << 8) < r << 8 <==> (v >> 8) ^ r < r
  {
  }

  lemma SwappedWordsShift(v: bv64, u: bv64, w: bv64, x: bv64)
    requires u == v >> 8 && u != 0 && w == Bswap64(v) && x == Bswap64(u)
    ensures x == w << 8 && x != 0
  {
  }

  lemma RightmostShift(w: bv64, x: bv64)
    requires x == w << 8 && x != 0
    ensures Rightmost(x) == Rightmost(w) << 8 && Rightmost(w) >> 56 == 0
  {
  }

  lemma BswapShift(r: bv64, q: bv64)
    requires q == r << 8 && r >> 56 == 0
    ensures Bswap64(r) == Bswap64(q) << 8 && Bswap64(q) >> 56 == 0
  {
  }

  // ---------- The number a word stands for ----------

  function LowByte(w: bv64): (b: bv8) {
    (w & 0xff) as bv8
  }

  /** The number in the low `n` bytes of a word. */
  function Value(w: bv64, n: nat): nat {
    if n == 0 then 0 else LowByte(w) as nat + 256 * Value(w >> 8, n - 1)
  }

  /** The first block size: `leftmost(estimate) << 1`, where the top bit is lost. */
  function FirstBlockSize(estimate: bv64): nat {
    Value(Leftmost(estimate) << 1, 8)
  }

  /** The estimates that leave no block size: zero, and those whose highest byte is 0x80, where the
      shift loses the bit. */
  predicate LeavesNoBlock(estimate: bv64) {
    estimate == 0 || estimate >> 56 == 0x80
  }

  lemma LeavesNoBlockIff(estimate: bv64)
    ensures Leftmost(estimate) << 1 == 0 <==> LeavesNoBlock(estimate)
  {
  }

  /** The first block size is zero exactly for those estimates, and otherwise a power of two from 2 on. */
  lemma FirstBlockSizeIsPowerOfTwo(estimate: bv64)
    ensures FirstBlockSize(estimate) == 0 <==> LeavesNoBlock(estimate)
    ensures !LeavesNoBlock(estimate) ==> exists m :: 1 <= m < 64 && FirstBlockSize(estimate) == Pow2(m)
  {
    hide Leftmost, Value, SingleBit;
    LeavesNoBlockIff(estimate);
    if LeavesNoBlock(estimate) {
      ZeroValue(8);
    } else {
      LeftmostIsSingleBit(estimate);
      var m := DoubledBitValue(Leftmost(estimate));
    }
  }

  lemma DoubledBitValue(r: bv64) returns (m: nat)
    requires SingleBit(r) && r << 1 != 0
    ensures 1 <= m < 64 && Value(r << 1, 8) == Pow2(m)
  {
    DoubledSingleBit(r);
    EveryWordHasEightBytes(r << 1);
    hide Value;
    m := SingleBitValue(r << 1, 8);
  }

  lemma DoubledSingleBit(r: bv64)
    requires SingleBit(r)
    ensures LowByte(r << 1) != 1 && (r << 1 == 0 || SingleBit(r << 1))
  {
  }

  lemma {:induction false} ZeroValue(n: nat)
    ensures Value(0, n) == 0
  {
    if n == 0 {
    } else {
      ZeroValue(n - 1);
      ZeroWord();
    }
  }

  lemma ZeroWord()
    ensures LowByte(0) == 0 && (0 as bv64) >> 8 == 0 && Leftmost(0) == 0
  {
  }

  predicate HasBytes(w: bv64, n: nat) {
    if n == 0 then w == 0 else HasBytes(w >> 8, n - 1)
  }

  lemma EveryWordHasEightBytes(w: bv64)
    ensures HasBytes(w, 8)
  {
    var w4 := w >> 8 >> 8 >> 8 >> 8;
    assert HasBytes(w4 >> 8 >> 8 >> 8 >> 8, 0);
    assert HasBytes(w4 >> 8 >> 8, 2);
    assert HasBytes(w4, 4);
    assert HasBytes(w >> 8 >> 8, 6);
  }

  lemma {:induction false} SingleBitValue(w: bv64, n: nat) returns (k: nat)
    requires SingleBit(w) && HasBytes(w, n)
    ensures k < 8 * n && Value(w, n) == Pow2(k)
    ensures k == 0 ==> LowByte(w) == 1
  {
    SingleBitInLowByteOrAbove(w);
    if LowByte(w) != 0 {
      ZeroValue(n - 1);
      k := SingleBitByte(LowByte(w));
    } else {
      var j := SingleBitValue(w >> 8, n - 1);
      k := j + 8;
      EightDoublings(j);
    }
  }

  lemma SingleBitInLowByteOrAbove(w: bv64)
    requires SingleBit(w)
    ensures
      var b := LowByte(w);
      if b != 0 then w >> 8 == 0 && b & (b - 1) == 0 else SingleBit(w >> 8)
  {
  }

  lemma SingleBitByte(b: bv8) returns (k: nat)
    requires b != 0 && b & (b - 1) == 0
    ensures k < 8 && b as nat == Pow2(k) && (k == 0 ==> b == 1)
  {
    assert b == 1 || b == 2 || b == 4 || b == 8 || b == 16 || b == 32 || b == 64 || b == 128;
    EightDoublings(0);
    k := if b == 1 then 0 else if b == 2 then 1 else if b == 4 then 2 else if b == 8 then 3
         else if b == 16 then 4 else if b == 32 then 5 else if b == 64 then 6 else 7;
  }

  lemma EightDoublings(j: nat)
    ensures Pow2(j + 1) == 2 * Pow2(j) && Pow2(j + 2) == 4 * Pow2(j) && Pow2(j + 3) == 8 * Pow2(j)
    ensures Pow2(j + 4) == 16 * Pow2(j) && Pow2(j + 5) == 32 * Pow2(j) && Pow2(j + 6) == 64 * Pow2(j)
    ensures Pow2(j + 7) == 128 * Pow2(j) && Pow2(j + 8) == 256 * Pow2(j)
  {
    assert Pow2(j + 1) == 2 * Pow2(j);
    assert Pow2(j + 2) == 2 * Pow2(j + 1);
    assert Pow2(j + 3) == 2 * Pow2(j + 2);
    assert Pow2(j + 4) == 2 * Pow2(j + 3);
    assert Pow2(j + 5) == 2 * Pow2(j + 4);
    assert Pow2(j + 6) == 2 * Pow2(j + 5);
    assert Pow2(j + 7) == 2 * Pow2(j + 6);
  }

  // ---------- The first block size in numbers ----------

  /** The exponent of the largest power of two that divides a number. */
  function TrailingZeros(n: nat): (e: nat)
    requires n > 0
  {
    if n % 2 == 1 then 0 else 1 + TrailingZeros(n / 2)
  }

  /** The exponent of the lowest bit in the highest byte of a number. */
  function LeftmostExponent(n: nat): (e: nat)
    requires n > 0
  {
    if n < 256 then TrailingZeros(n) else 8 + LeftmostExponent(n / 256)
  }

  lemma {:induction false} TrailingZerosDivide(n: nat)
    requires n > 0
    ensures n % Pow2(TrailingZeros(n)) == 0 && n / Pow2(TrailingZeros(n)) % 2 == 1
  {
    if n % 2 == 1 {
      assert Pow2(0) == 1;
    } else {
      TrailingZerosDivide(n / 2);
      var d := Pow2(TrailingZeros(n / 2));
      assert Pow2(TrailingZeros(n)) == 2 * d;
      hide Pow2, TrailingZeros;
      TwiceTheMultiple(n, d);
    }
  }

  lemma TwiceTheMultiple(n: nat, d: nat)
    requires d > 0 && n % 2 == 0
    ensures n / 2 % d == 0 ==> n % (2 * d) == 0 && n / (2 * d) == n / 2 / d
  {
    var q, r := n / 2 / d, n / 2 % d;
    if r == 0 {
      assert n / 2 == d * q;
      assert n == 2 * d * q;
      RemainderIs(n, 2 * d, q, 0);
    }
  }

  /** With the highest non-zero byte in place `t`, the exponent is that of the lowest bit of this byte. */
  lemma {:induction false} LeftmostExponentIs(n: nat, t: nat)
    requires n > 0 && Pow2(8 * t) <= n < Pow2(8 * t + 8)
    ensures 0 < n / Pow2(8 * t) < 256 && LeftmostExponent(n) == 8 * t + TrailingZeros(n / Pow2(8 * t))
  {
    if t == 0 {
      EightDoublings(0);
      assert Pow2(0) == 1;
    } else {
      EightDoublings(8 * t);
      EightDoublings(8 * t - 8);
      PowerPositive(8 * t - 8);
      hide Pow2;
      DropByte(n, Pow2(8 * t - 8));
      LeftmostExponentIs(n / 256, t - 1);
    }
  }

  lemma PowerPositive(k: nat)
    ensures Pow2(k) >= 1
  {
  }

  lemma DropByte(n: nat, d: nat)
    requires d >= 1 && 256 * d <= n < 65536 * d
    ensures d <= n / 256 < 256 * d && n >= 256
    ensures n / (256 * d) == n / 256 / d
  {
    var q, r := n / 256 / d, n / 256 % d;
    assert n / 256 == d * q + r;
    assert n == 256 * d * q + (256 * r + n % 256);
    RemainderIs(n, 256 * d, q, 256 * r + n % 256);
  }

  lemma ByteExponent(b: bv8)
    requires b != 0
    ensures (b & (0 - b)) as nat == Pow2(TrailingZeros(b as nat))
  {
    if b & 1 == 1 {
      OddByte(b);
    } else {
      var h := b >> 1;
      HalfOfByte(b, h);
      ByteExponent(h);
      DoubledExponent(b as nat, h as nat);
    }
  }

  lemma DoubledExponent(n: nat, h: nat)
    requires h > 0 && n == 2 * h
    ensures Pow2(TrailingZeros(n)) == 2 * Pow2(TrailingZeros(h))
  {
  }

  lemma OddByte(b: bv8)
    requires b & 1 == 1
    ensures b & (0 - b) == 1 && b as nat % 2 == 1
  {
  }

  lemma HalfOfByte(b: bv8, h: bv8)
    requires b != 0 && b & 1 == 0 && h == b >> 1
    ensures h != 0 && b as nat == 2 * h as nat
    ensures (b & (0 - b)) as nat == 2 * (h & (0 - h)) as nat
  {
  }

  lemma LeftmostOfLowByte(v: bv64)
    requires v >> 8 == 0 && v != 0
    ensures LowByte(v) != 0 && Leftmost(v) >> 8 == 0
    ensures LowByte(Leftmost(v)) == LowByte(v) & (0 - LowByte(v))
  {
    assert Leftmost(v) == Rightmost(v);
  }

  lemma LeftmostFollows(v: bv64, u: bv64)
    requires u == v >> 8 && u != 0
    ensures Leftmost(v) == Leftmost(u) << 8 && Leftmost(u) >> 56 == 0
  {
    hide Bswap64, Rightmost;
    var w, x := Bswap64(v), Bswap64(u);
    LeftmostShift(v, u, w, x, Rightmost(w), Rightmost(x));
  }

  lemma LeftmostAboveLowByte(v: bv64, u: bv64)
    requires u == v >> 8 && u != 0
    ensures LowByte(Leftmost(v)) == 0 && Leftmost(v) >> 8 == Leftmost(u)
  {
    hide Leftmost;
    LeftmostFollows(v, u);
    ShiftedByByte(Leftmost(v), Leftmost(u));
  }

  lemma ShiftedByByte(l: bv64, r: bv64)
    requires l == r << 8 && r >> 56 == 0
    ensures LowByte(l) == 0 && l >> 8 == r
  {
  }

  /** The number that `leftmost` gives, for the number it is given. */
  lemma {:induction false} LeftmostInNumbers(v: bv64, n: nat)
    requires v != 0 && HasBytes(v, n)
    ensures Value(v, n) > 0 && Value(Leftmost(v), n) == Pow2(LeftmostExponent(Value(v, n)))
    decreases n
  {
    hide Leftmost, LowByte, Pow2, TrailingZeros;
    var u := v >> 8;
    if u == 0 {
      LeftmostOfLowByte(v);
      ZeroValue(n - 1);
      ByteExponent(LowByte(v));
    } else {
      LeftmostAboveLowByte(v, u);
      LeftmostInNumbers(u, n - 1);
      EightDoublings(LeftmostExponent(Value(u, n - 1)));
      ByteOnTop(LowByte(v) as nat, Value(u, n - 1));
    }
  }

  lemma ByteOnTop(b: nat, m: nat)
    requires b < 256 && m > 0
    ensures (b + 256 * m) / 256 == m && b + 256 * m >= 256
  {
  }

  lemma {:induction false} DoubledInNumbers(r: bv64, d: bv64, n: nat)
    requires SingleBit(r) && r >> 63 == 0 && d == r << 1 && HasBytes(d, n)
    ensures Value(d, n) == 2 * Value(r, n)
    decreases n
  {
    SingleBitInLowByteOrAbove(r);
    DoubledWord(r, d);
    hide SingleBit, LowByte;
    ZeroValue(n - 1);
    if LowByte(r) != 0 && LowByte(r) != 128 {
      DoubledByte(LowByte(r), LowByte(d));
    } else if LowByte(r) == 128 {
      OneInNumbers(n - 1);
    } else {
      DoubledInNumbers(r >> 8, d >> 8, n - 1);
    }
  }

  lemma DoubledWord(r: bv64, d: bv64)
    requires SingleBit(r) && r >> 63 == 0 && d == r << 1
    ensures d != 0 && LowByte(d) == LowByte(r) << 1
    ensures LowByte(r) == 0 ==> d >> 8 == (r >> 8) << 1 && (r >> 8) >> 63 == 0
    ensures LowByte(r) != 0 ==> r >> 8 == 0
    ensures LowByte(r) == 128 ==> d >> 8 == 1
    ensures LowByte(r) != 0 && LowByte(r) != 128 ==> d >> 8 == 0
  {
  }

  lemma DoubledByte(b: bv8, d: bv8)
    requires b != 0 && b & (b - 1) == 0 && b != 128 && d == b << 1
    ensures d as nat == 2 * b as nat
  {
  }

  lemma OneInNumbers(n: nat)
    ensures n > 0 ==> Value(1, n) == 1
  {
    if n > 0 {
      ZeroValue(n - 1);
      assert LowByte(1) == 1 && (1 as bv64) >> 8 == 0;
    }
  }

  lemma {:induction false} ValueBound(w: bv64, n: nat)
    ensures Value(w, n) < Pow2(8 * n)
  {
    if n == 0 {
    } else {
      hide LowByte;
      ValueBound(w >> 8, n - 1);
      EightDoublings(8 * n - 8);
    }
  }

  lemma TopBitInNumbers(r: bv64)
    requires SingleBit(r) && r >> 63 != 0
    ensures r << 1 == 0 && Value(r, 8) == Pow2(63)
  {
    OnlyTopBit(r);
    hide LowByte, Value;
    ZeroLowByte(0x8000_0000_0000_0000, 0x80_0000_0000_0000, 7);
    ZeroLowByte(0x80_0000_0000_0000, 0x8000_0000_0000, 6);
    ZeroLowByte(0x8000_0000_0000, 0x80_0000_0000, 5);
    ZeroLowByte(0x80_0000_0000, 0x8000_0000, 4);
    ZeroLowByte(0x8000_0000, 0x80_0000, 3);
    ZeroLowByte(0x80_0000, 0x8000, 2);
    ZeroLowByte(0x8000, 0x80, 1);
    LoneByte(0x80, 0x80, 1);
    HalfOfWord();
  }

  lemma HalfOfWord()
    ensures Pow2(63) == 0x8000_0000_0000_0000
  {
    WordPowers();
    assert Pow2(64) == 2 * Pow2(63);
  }

  lemma ZeroLowByte(w: bv64, u: bv64, n: nat)
    requires w == u << 8 && u >> 56 == 0
    ensures Value(w, n + 1) == 256 * Value(u, n)
  {
    ShiftedByByte(w, u);
  }

  lemma LoneByte(w: bv64, b: bv8, n: nat)
    requires n > 0 && LowByte(w) == b && w >> 8 == 0
    ensures Value(w, n) == b as nat
  {
    hide LowByte;
    ZeroValue(n - 1);
  }

  lemma OnlyTopBit(r: bv64)
    requires SingleBit(r) && r >> 63 != 0
    ensures r == 0x8000_0000_0000_0000
  {
  }

  /** The first block size: twice the lowest bit in the highest byte of the estimate, in 64 bits. */
  lemma FirstBlockSizeInNumbers(estimate: bv64)
    requires estimate != 0
    ensures Value(estimate, 8) > 0
    ensures
      var e := LeftmostExponent(Value(estimate, 8));
      e < 64 && FirstBlockSize(estimate) == if e == 63 then 0 else Pow2(e + 1)
  {
    hide Leftmost, Value, SingleBit, HasBytes, Pow2;
    var r := Leftmost(estimate);
    EveryWordHasEightBytes(estimate);
    LeftmostInNumbers(estimate, 8);
    LeftmostIsSingleBit(estimate);
    var e := LeftmostExponent(Value(estimate, 8));
    hide LeftmostExponent;
    EightDoublings(e);
    if r >> 63 == 0 {
      EveryWordHasEightBytes(r << 1);
      DoubledInNumbers(r, r << 1, 8);
      ValueBound(r << 1, 8);
      if e >= 63 { Pow2Monotone(64, e + 1); }
    } else {
      TopBitInNumbers(r);
      ZeroValue(8);
      PowersDiffer(e, 63);
      PowersDiffer(63, e);
    }
  }

  lemma PowersDiffer(j: nat, k: nat)
    ensures j < k ==> Pow2(j) < Pow2(k)
  {
    if j < k {
      Pow2Monotone(j + 1, k);
    }
  }

  lemma ZeroLeavesNoBlock(estimate: bv64)
    ensures estimate == 0 ==> LeavesNoBlock(estimate)
  {
  }

  /** An estimate of 300, 0x12c, starts the search at twice 0x100. */
  lemma SomeFirstBlockSize()
    ensures Value(300, 8) == 300 && FirstBlockSize(300) == 512
  {
    WordsOf300();
    hide LowByte, Leftmost;
    LoneByte(1, 1, 7);
    ZeroLowByte(512, 2, 7);
    LoneByte(2, 2, 7);
  }

  lemma WordsOf300()
    ensures LowByte(300) == 44 && (300 as bv64) >> 8 == 1 && LowByte(1) == 1 && LowByte(2) == 2
    ensures Leftmost(300) << 1 == 512
  {
  }
}
