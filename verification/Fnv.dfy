/** The FNV-1 piece hash of src/ctph.c (`fnv_add_byte`) and the base-64 digit taken from it.
    A 64-bit word is a number below 2^64; the product wraps around explicitly. */
module Fnv {
  import opened Words

  type word = x: int | 0 <= x < UINT64_MOD

  const FNV_OFFSET_BASIS: word := 0xcbf29ce484222325
  const FNV_PRIME: word := 0x100000001b3
  const FNV_PRIME_INVERSE: word := 0xce965057aff6957b

  // ---------- Exclusive or ----------

  /** The exclusive or of the low `n` bits of two numbers. */
  function Xor(x: nat, y: nat, n: nat): (r: nat)
    ensures r < Pow2(n)
  {
    if n == 0 then 0 else (x + y) % 2 + 2 * Xor(x / 2, y / 2, n - 1)
  }

  lemma {:induction false} XorTwice(x: nat, y: nat, n: nat)
    requires x < Pow2(n)
    ensures Xor(Xor(x, y, n), y, n) == x
  {
    if n == 0 {
    } else {
      XorTwice(x / 2, y / 2, n - 1);
      BitBack(x, y, (x + y) % 2, Xor(x / 2, y / 2, n - 1));
    }
  }

  lemma BitBack(x: nat, y: nat, bit: nat, r: nat)
    requires bit == (x + y) % 2
    ensures (bit + 2 * r) / 2 == r && (bit + 2 * r + y) % 2 == x % 2
  {
  }

  /** The low bits of an exclusive or depend on the low bits only. */
  lemma {:induction false} XorLowBits(x: nat, y: nat, n: nat, m: nat)
    requires m <= n
    ensures Xor(x, y, n) % Pow2(m) == Xor(x % Pow2(m), y % Pow2(m), m)
  {
    if m == 0 {
    } else {
      hide Xor;
      var d := Pow2(m - 1);
      XorUnfolded(x, y, n);
      XorUnfolded(x % (2 * d), y % (2 * d), m);
      XorLowBits(x / 2, y / 2, n - 1, m - 1);
      XorLowBitsStep(x, y, d, Xor(x / 2, y / 2, n - 1));
    }
  }

  lemma XorUnfolded(x: nat, y: nat, n: nat)
    requires n > 0
    ensures Xor(x, y, n) == (x + y) % 2 + 2 * Xor(x / 2, y / 2, n - 1)
  {
  }

  lemma XorLowBitsStep(x: nat, y: nat, d: nat, r: nat)
    requires d > 0
    ensures
      var x', y' := x % (2 * d), y % (2 * d);
      && ((x + y) % 2 + 2 * r) % (2 * d) == (x' + y') % 2 + 2 * (r % d)
      && x' / 2 == x / 2 % d && y' / 2 == y / 2 % d
  {
    HalfOfMod(x, d);
    HalfOfMod(y, d);
    SumMod2(x, y, x % (2 * d), y % (2 * d));
    BitInFront((x + y) % 2, r, d);
  }

  lemma BitInFront(bit: nat, r: nat, d: nat)
    requires d > 0 && bit < 2
    ensures (bit + 2 * r) % (2 * d) == bit + 2 * (r % d)
  {
    BitBack(bit, 0, bit, r);
    ModDoubled(bit + 2 * r, d);
  }

  lemma HalfOfMod(x: nat, d: nat)
    requires d > 0
    ensures x % (2 * d) / 2 == x / 2 % d && x % (2 * d) % 2 == x % 2
  {
    ModDoubled(x, d);
    BitBack(x % 2, 0, x % 2, x / 2 % d);
  }

  lemma SumMod2(x: nat, y: nat, x': nat, y': nat)
    requires x' % 2 == x % 2 && y' % 2 == y % 2
    ensures (x' + y') % 2 == (x + y) % 2
  {
  }

  lemma ModDoubled(x: nat, d: nat)
    requires d > 0
    ensures x % (2 * d) == x % 2 + 2 * ((x / 2) % d)
  {
    var q, r := x / 2 / d, (x / 2) % d;
    assert x / 2 == q * d + r;
    assert x == (2 * d) * q + (x % 2 + 2 * r);
    RemainderIs(x, 2 * d, q, x % 2 + 2 * r);
  }

  /** A byte is combined with the low eight bits of the word. */
  function XorWord(hash: word, b: byte): (r: word) {
    LowByteReplaced(hash, Xor(hash % 256, b as nat, 8));
    hash - hash % 256 + Xor(hash % 256, b as nat, 8)
  }

  lemma Pow2Of8()
    ensures Pow2(6) == 64 && Pow2(8) == 256
  {
    assert Pow2(3) == 8;
    assert Pow2(6) == 64;
  }

  lemma LowByteReplaced(h: word, y: nat)
    requires y < Pow2(8)
    ensures 0 <= h - h % 256 + y < UINT64_MOD
    ensures (h - h % 256 + y) % 256 == y
    ensures (h - h % 256 + y) % 64 == y % 64
  {
    Pow2Of8();
    LowByteOf(h / 256, y);
  }

  lemma LowByteOf(k: nat, y: nat)
    requires y < 256
    ensures (256 * k + y) % 256 == y && (256 * k + y) % 64 == y % 64
  {
    RemainderIs(256 * k + y, 256, k, y);
    RemainderIs(256 * k + y, 64, 4 * k + y / 64, y % 64);
  }

  lemma XorWordTwice(hash: word, b: byte)
    ensures XorWord(XorWord(hash, b), b) == hash
  {
    hide Xor, Pow2;
    Pow2Of8();
    var y := Xor(hash % 256, b as nat, 8);
    LowByteReplaced(hash, y);
    XorTwice(hash % 256, b as nat, 8);
    assert XorWord(hash, b) == hash - hash % 256 + y;
  }

  // ---------- The hash ----------

  function AddByte(hash: word, byte: byte): word {
    XorWord(hash * FNV_PRIME % UINT64_MOD, byte)
  }

  function HashFrom(hash: word, piece: seq<byte>): word {
    if piece == [] then hash
    else AddByte(HashFrom(hash, piece[..|piece| - 1]), piece[|piece| - 1])
  }

  function Hash(piece: seq<byte>): word {
    HashFrom(FNV_OFFSET_BASIS, piece)
  }

  predicate IsBase64(c: char) {
    'A' <= c <= 'Z' || 'a' <= c <= 'z' || '0' <= c <= '9' || c == '+' || c == '/'
  }

  /** The table `b64`: capital letters, small letters, decimal digits, plus and slash. */
  function B64(i: nat): (c: char)
    requires i < 64
    ensures IsBase64(c)
  {
    if i < 26 then ('A' as int + i) as char
    else if i < 52 then ('a' as int + (i - 26)) as char
    else if i < 62 then ('0' as int + (i - 52)) as char
    else if i == 62 then '+'
    else '/'
  }

  function Digit(hash: word): (c: char)
    ensures IsBase64(c)
  {
    B64(hash % 64)
  }

  /** The table of src/ctph.c, written out. */
  lemma B64IsTable(i: nat)
    requires i < 64
    ensures B64(i) == "ABCDEFGHIJKLMNOPQRSTUVWXYZabcdefghijklmnopqrstuvwxyz0123456789+/"[i]
  {
    TableInParts();
    B64IsInParts(i);
    hide B64;
  }

  lemma TableInParts()
    ensures "ABCDEFGHIJKLMNOPQRSTUVWXYZabcdefghijklmnopqrstuvwxyz0123456789+/" ==
            "ABCDEFGHIJKLMNOPQRSTUVWXYZ" + "abcdefghijklmnopqrstuvwxyz" + "0123456789+/"
  {
  }

  lemma B64IsInParts(i: nat)
    requires i < 64
    ensures B64(i) == ("ABCDEFGHIJKLMNOPQRSTUVWXYZ" + "abcdefghijklmnopqrstuvwxyz" + "0123456789+/")[i]
  {
  }

  /** What a base-64 character stands for. */
  function FromB64(c: char): (i: nat)
    requires IsBase64(c)
    ensures i < 64
  {
    if c == '+' then 62
    else if c == '/' then 63
    else if c <= '9' then c as int - '0' as int + 52
    else if c <= 'Z' then c as int - 'A' as int
    else c as int - 'a' as int + 26
  }

  /** The two are inverse, so a signature character says everything about the low six bits of its
      hash and nothing else. */
  lemma FromB64UndoesB64(i: nat, c: char)
    ensures i < 64 ==> FromB64(B64(i)) == i
    ensures IsBase64(c) ==> B64(FromB64(c)) == c
  {
  }

  lemma EqualDigitsIff(h1: word, h2: word)
    ensures Digit(h1) == Digit(h2) <==> h1 % 64 == h2 % 64
  {
    FromB64UndoesB64(h1 % 64, 'A');
    FromB64UndoesB64(h2 % 64, 'A');
  }

  // ---------- The numbers ----------

  /** Bit `i` of an exclusive or is set exactly if it is set in one of the two numbers. */
  lemma {:induction false} XorBit(x: nat, y: nat, n: nat, i: nat)
    requires i < n
    ensures Xor(x, y, n) / Pow2(i) % 2 == (x / Pow2(i) + y / Pow2(i)) % 2
    decreases n
  {
    XorUnfolded(x, y, n);
    hide Xor, Pow2;
    if i == 0 {
      XorLowestBit(x, y, Xor(x / 2, y / 2, n - 1));
    } else {
      XorBit(x / 2, y / 2, n - 1, i - 1);
      XorHigherBit(x, y, Xor(x / 2, y / 2, n - 1), i);
    }
  }

  lemma XorLowestBit(x: nat, y: nat, r: nat)
    ensures ((x + y) % 2 + 2 * r) / Pow2(0) % 2 == (x / Pow2(0) + y / Pow2(0)) % 2
  {
    BitBack(x, y, (x + y) % 2, r);
    assert Pow2(0) == 1;
  }

  lemma XorHigherBit(x: nat, y: nat, r: nat, i: nat)
    requires i > 0 && r / Pow2(i - 1) % 2 == (x / 2 / Pow2(i - 1) + y / 2 / Pow2(i - 1)) % 2
    ensures ((x + y) % 2 + 2 * r) / Pow2(i) % 2 == (x / Pow2(i) + y / Pow2(i)) % 2
  {
    hide Pow2;
    HigherBit(x, i);
    HigherBit(y, i);
    HigherBit((x + y) % 2 + 2 * r, i);
    BitBack(x, y, (x + y) % 2, r);
  }

  lemma HigherBit(x: nat, i: nat)
    requires i > 0
    ensures x / Pow2(i) == x / 2 / Pow2(i - 1)
  {
    var d := Pow2(i - 1);
    assert Pow2(i) == 2 * d;
    hide Pow2;
    TwiceTheDivisor(x, d, x / 2 / d, x / 2 % d);
  }

  lemma TwiceTheDivisor(x: nat, d: nat, q: nat, r: nat)
    requires d > 0 && x / 2 == d * q + r && r < d
    ensures x / (2 * d) == q
  {
    assert x == (2 * d) * q + (x % 2 + 2 * r);
    RemainderIs(x, 2 * d, q, x % 2 + 2 * r);
  }

  lemma HashSnoc(piece: seq<byte>, b: byte)
    ensures Hash(piece + [b]) == AddByte(Hash(piece), b)
  {
    assert (piece + [b])[..|piece|] == piece;
  }

  /** One step in numbers: multiply in 64 bits, then combine the byte with the low byte. */
  lemma AddByteIs(hash: word, b: byte, product: word, low: nat)
    requires hash * 0x100000001b3 % 0x1_0000_0000_0000_0000 == product && product % 256 == low
    ensures AddByte(hash, b) == product - low + Xor(low, b as nat, 8)
  {
    hide Xor;
  }

  lemma HashOfNothing()
    ensures Hash([]) == 0xcbf29ce484222325
  {
  }

  /** The published test vector of 64-bit FNV-1 for "foo". */
  lemma TestVector()
    ensures Hash([0x66, 0x6f, 0x6f]) == 0xd8cbc7186ba13533
  {
    hide AddByte, Hash;
    HashOfNothing();
    FirstStep();
    SecondStep();
    ThirdStep();
    assert [] + [0x66] == [0x66 as byte];
    HashSnoc([], 0x66);
    assert [0x66] + [0x6f] == [0x66, 0x6f as byte];
    HashSnoc([0x66], 0x6f);
    assert [0x66, 0x6f] + [0x6f] == [0x66, 0x6f, 0x6f as byte];
    HashSnoc([0x66, 0x6f], 0x6f);
  }

  lemma FirstXor()
    ensures Xor(0xdf, 0x66, 8) == 0xb9
  {
    assert Xor(0xd, 0x6, 4) == 0xb;
  }

  lemma FirstStep()
    ensures AddByte(0xcbf29ce484222325, 0x66) == 0xaf63bd4c8601b7b9
  {
    hide Xor, AddByte;
    FirstXor();
    AddByteIs(0xcbf29ce484222325, 0x66, 0xaf63bd4c8601b7df, 0xdf);
  }

  lemma SecondXor()
    ensures Xor(0x5b, 0x6f, 8) == 0x34
  {
    assert Xor(0x5, 0x6, 4) == 0x3;
  }

  lemma SecondStep()
    ensures AddByte(0xaf63bd4c8601b7b9, 0x6f) == 0x8326207b4eb2f34
  {
    hide Xor, AddByte;
    SecondXor();
    AddByteIs(0xaf63bd4c8601b7b9, 0x6f, 0x8326207b4eb2f5b, 0x5b);
  }

  lemma ThirdXor()
    ensures Xor(0x5c, 0x6f, 8) == 0x33
  {
    assert Xor(0x5, 0x6, 4) == 0x3;
  }

  lemma ThirdStep()
    ensures AddByte(0x8326207b4eb2f34, 0x6f) == 0xd8cbc7186ba13533
  {
    hide Xor, AddByte;
    ThirdXor();
    AddByteIs(0x8326207b4eb2f34, 0x6f, 0xd8cbc7186ba1355c, 0x5c);
  }

  // ---------- A 6-bit machine computes the digit ----------

  type sixbits = x: int | 0 <= x < 64

  function SmallAddByte(hash: sixbits, byte: byte): sixbits {
    Pow2Of8();
    Xor(hash * 51 % 64, byte as nat % 64, 6)
  }

  function SmallHashFrom(hash: sixbits, piece: seq<byte>): sixbits {
    if piece == [] then hash
    else SmallAddByte(SmallHashFrom(hash, piece[..|piece| - 1]), piece[|piece| - 1])
  }

  lemma Mod256Mod64(x: nat)
    ensures x % 256 % 64 == x % 64
  {
  }

  lemma AddByteMod64(hash: word, byte: byte)
    ensures AddByte(hash, byte) % 64 == SmallAddByte(hash % 64, byte)
  {
    hide Xor, Pow2;
    var p := hash * FNV_PRIME % UINT64_MOD;
    Pow2Of8();
    LowByteReplaced(p, Xor(p % 256, byte as nat, 8));
    XorLowBits(p % 256, byte as nat, 8, 6);
    Mod256Mod64(p);
    ProductMod64(hash);
  }

  lemma ProductMod64(hash: word)
    ensures hash * FNV_PRIME % UINT64_MOD % 64 == hash % 64 * 51 % 64
  {
    ModWordMod64(hash * FNV_PRIME);
    LowPrimeMod64(hash, hash * 0x400000006);
  }

  lemma LowPrimeMod64(x: nat, k: nat)
    ensures (x * 51 + 64 * k) % 64 == x % 64 * 51 % 64
  {
  }

  lemma ModWordMod64(x: nat)
    ensures x % UINT64_MOD % 64 == x % 64
  {
  }

  /** The signature character of a piece depends on its bytes modulo 64 only: it is computed
      by a machine with a 6-bit state and the multiplier 51. */
  lemma {:induction false} DigitIsSixBitHash(hash: word, piece: seq<byte>)
    ensures HashFrom(hash, piece) % 64 == SmallHashFrom(hash % 64, piece)
    ensures Digit(HashFrom(hash, piece)) == B64(SmallHashFrom(hash % 64, piece))
  {
    if piece == [] {
    } else {
      DigitIsSixBitHash(hash, piece[..|piece| - 1]);
      AddByteMod64(HashFrom(hash, piece[..|piece| - 1]), piece[|piece| - 1]);
    }
  }

  lemma {:induction false} SmallHashesAgree(hash: sixbits, p: seq<byte>, q: seq<byte>)
    requires |p| == |q| && forall i :: 0 <= i < |p| ==> p[i] as nat % 64 == q[i] as nat % 64
    ensures SmallHashFrom(hash, p) == SmallHashFrom(hash, q)
    decreases |p|
  {
    if p == [] {
    } else {
      SmallHashesAgree(hash, p[..|p| - 1], q[..|p| - 1]);
    }
  }

  lemma PiecesEqualMod64ShareTheirDigit(p: seq<byte>, q: seq<byte>)
    requires |p| == |q| && forall i :: 0 <= i < |p| ==> p[i] as nat % 64 == q[i] as nat % 64
    ensures Digit(Hash(p)) == Digit(Hash(q))
  {
    DigitIsSixBitHash(FNV_OFFSET_BASIS, p);
    DigitIsSixBitHash(FNV_OFFSET_BASIS, q);
    SmallHashesAgree(FNV_OFFSET_BASIS % 64, p, q);
  }

  // ---------- Each step is a bijection ----------

  function RemoveByte(hash: word, byte: byte): word {
    XorWord(hash, byte) * FNV_PRIME_INVERSE % UINT64_MOD
  }

  lemma RemoveUndoesAdd(hash: word, byte: byte)
    ensures RemoveByte(AddByte(hash, byte), byte) == hash
    ensures AddByte(RemoveByte(hash, byte), byte) == hash
  {
    XorWordTwice(hash * FNV_PRIME % UINT64_MOD, byte);
    XorWordTwice(hash, byte);
    InverseCancels(hash);
    InverseCancels(XorWord(hash, byte));
  }

  lemma InverseCancels(x: word)
    ensures x * FNV_PRIME % UINT64_MOD * FNV_PRIME_INVERSE % UINT64_MOD == x
    ensures x * FNV_PRIME_INVERSE % UINT64_MOD * FNV_PRIME % UINT64_MOD == x
  {
    ProductOfMod(x, FNV_PRIME, FNV_PRIME_INVERSE);
    ProductOfMod(x, FNV_PRIME_INVERSE, FNV_PRIME);
    assert FNV_PRIME * FNV_PRIME_INVERSE == 1 + 0xce9650590f * UINT64_MOD;
    OneModWord(x, 0xce9650590f);
  }

  lemma ProductOfMod(x: nat, p: nat, q: nat)
    ensures x * p % UINT64_MOD * q % UINT64_MOD == x * (p * q) % UINT64_MOD
  {
    var k, r := x * p / UINT64_MOD, x * p % UINT64_MOD;
    assert x * p == k * UINT64_MOD + r;
    assert x * (p * q) == (x * p) * q;
    assert (k * UINT64_MOD + r) * q == (k * q) * UINT64_MOD + r * q;
  }

  lemma OneModWord(x: word, k: nat)
    ensures x * (1 + k * UINT64_MOD) % UINT64_MOD == x
  {
    assert x * (1 + k * UINT64_MOD) == x + (x * k) * UINT64_MOD;
    MultipleVanishes(x, x * k);
  }

  lemma MultipleVanishes(x: word, k: nat)
    ensures (x + k * UINT64_MOD) % UINT64_MOD == x
  {
  }

  /** Hashing a common suffix keeps distinct hashes distinct. */
  lemma {:induction false} HashFromInjective(h1: word, h2: word, piece: seq<byte>)
    ensures HashFrom(h1, piece) == HashFrom(h2, piece) <==> h1 == h2
  {
    if piece == [] {
    } else {
      var n := |piece| - 1;
      HashFromInjective(h1, h2, piece[..n]);
      RemoveUndoesAdd(HashFrom(h1, piece[..n]), piece[n]);
      RemoveUndoesAdd(HashFrom(h2, piece[..n]), piece[n]);
    }
  }

  // ---------- Zero bytes ----------

  function Power(x: nat, n: nat): nat {
    if n == 0 then 1 else Power(x, n - 1) * x
  }

  lemma {:induction false} PowerOfPrimeSum(m: nat, n: nat)
    ensures Power(FNV_PRIME, m + n) == Power(FNV_PRIME, m) * Power(FNV_PRIME, n)
  {
    if n == 0 {
    } else {
      PowerOfPrimeSum(m, n - 1);
      Reassociate(Power(FNV_PRIME, m), Power(FNV_PRIME, n - 1), FNV_PRIME);
    }
  }

  lemma Reassociate(x: nat, y: nat, z: nat)
    ensures x * y * z == x * (y * z)
  {
  }

  lemma {:induction false} XorWithZero(x: nat, n: nat)
    requires x < Pow2(n)
    ensures Xor(x, 0, n) == x
  {
    if n == 0 {
    } else {
      XorWithZero(x / 2, n - 1);
    }
  }

  lemma ZeroByteMultiplies(hash: word)
    ensures AddByte(hash, 0) == hash * FNV_PRIME % UINT64_MOD
  {
    Pow2Of8();
    XorWithZero(hash * FNV_PRIME % UINT64_MOD % 256, 8);
  }

  lemma {:induction false} HashOfZeros(hash: word, n: nat)
    ensures HashFrom(hash, Zeros(n)) == hash * Power(FNV_PRIME, n) % UINT64_MOD
  {
    if n == 0 {
    } else {
      hide AddByte;
      assert Zeros(n)[..n - 1] == Zeros(n - 1);
      HashOfZeros(hash, n - 1);
      ZeroByteMultiplies(HashFrom(hash, Zeros(n - 1)));
      ProductOfMod(hash, Power(FNV_PRIME, n - 1), FNV_PRIME);
    }
  }

  /** One more than an odd multiple of 2^(k+2): squaring doubles the power of two. */
  lemma {:induction false} PrimeSquared(k: nat) returns (u: nat)
    requires k > 0
    ensures Power(FNV_PRIME, Pow2(k)) == 1 + Pow2(k + 2) * u && u % 2 == 1
  {
    if k == 1 {
      u := SquareOfPrime();
    } else {
      hide Power, Pow2;
      var v := PrimeSquared(k - 1);
      PowerOfPrimeSum(Pow2(k - 1), Pow2(k - 1));
      Doublings(k);
      u := SquareStep(Power(FNV_PRIME, Pow2(k - 1)), Pow2(k), Pow2(k + 1), Pow2(k + 2), v);
    }
  }

  lemma Doublings(k: nat)
    requires k > 0
    ensures Pow2(k) == Pow2(k - 1) + Pow2(k - 1) && Pow2(k) % 2 == 0
    ensures Pow2(k + 1) == 2 * Pow2(k) && Pow2(k + 2) == 2 * Pow2(k + 1)
  {
    var d := Pow2(k - 1);
    assert Pow2(k) == 2 * d;
    assert Pow2(k + 1) == 2 * Pow2(k);
    hide Pow2;
    EvenAdded(2, d, 0);
  }

  lemma SquareOfPrime() returns (u: nat)
    ensures Power(FNV_PRIME, Pow2(1)) == 1 + Pow2(3) * u && u % 2 == 1
  {
    u := (FNV_PRIME * FNV_PRIME - 1) / 8;
    assert Pow2(1) == 2 && Pow2(3) == 8;
    PowerOfPrimeSum(1, 1);
  }

  lemma SquareStep(x: nat, d: nat, e: nat, f: nat, v: nat) returns (u: nat)
    requires x == 1 + e * v && f == 2 * e && e == 2 * d && d % 2 == 0 && v % 2 == 1
    ensures x * x == 1 + f * u && u % 2 == 1
  {
    u := v + d * (v * v);
    SquareInTwice(x, d, e, v);
    TwiceTheFactor(e, f, u);
    EvenAdded(d, v * v, v);
  }

  lemma SquareInTwice(x: nat, d: nat, e: nat, v: nat)
    requires x == 1 + e * v && e == 2 * d
    ensures x * x == 1 + e * (2 * (v + d * (v * v)))
  {
    ProductOfSums(x, x, e, v, v);
    SumIsTwice(d, e, v, v * v);
  }

  lemma SumIsTwice(d: nat, e: nat, v: nat, w: nat)
    requires e == 2 * d
    ensures v + v + e * w == 2 * (v + d * w)
  {
  }

  lemma EvenAdded(d: nat, z: nat, v: nat)
    requires d % 2 == 0
    ensures (v + d * z) % 2 == v % 2
  {
    assert d * z == 2 * (d / 2 * z);
  }

  lemma TwiceTheFactor(e: nat, f: nat, u: nat)
    requires f == 2 * e
    ensures e * (2 * u) == f * u
  {
  }

  lemma {:induction false} PrimeToMultiple(k: nat, o: nat, n: nat) returns (w: nat)
    requires k > 0 && n == Pow2(k) * o
    ensures Power(FNV_PRIME, n) == 1 + Pow2(k + 2) * w && w % 2 == o % 2
  {
    assert Pow2(k + 2) == 2 * Pow2(k + 1) && Power(FNV_PRIME, 0) == 1;
    hide Power, Pow2;
    if o == 0 {
      w := 0;
    } else {
      var m := OneLess(Pow2(k), o, n);
      var v := PrimeToMultiple(k, o - 1, m);
      var u := PrimeSquared(k);
      PowerOfPrimeSum(m, Pow2(k));
      w := OneMoreFactor(Power(FNV_PRIME, m), Power(FNV_PRIME, Pow2(k)), Pow2(k + 2), v, u);
      ParityAlternates(w, v, o);
    }
  }

  lemma ParityAlternates(w: nat, v: nat, o: nat)
    requires o > 0 && w % 2 == (v + 1) % 2 && v % 2 == (o - 1) % 2
    ensures w % 2 == o % 2
  {
  }

  lemma OneLess(x: nat, o: nat, n: nat) returns (m: nat)
    requires o > 0 && n == x * o
    ensures m == x * (o - 1) && n == m + x
  {
    m := x * (o - 1);
  }

  lemma OneMoreFactor(x: nat, y: nat, d: nat, v: nat, u: nat) returns (w: nat)
    requires x == 1 + d * v && y == 1 + d * u && u % 2 == 1 && d % 2 == 0
    ensures x * y == 1 + d * w && w % 2 == (v + 1) % 2
  {
    w := v + u + d * (v * u);
    ProductOfSums(x, y, d, v, u);
    ParityOfSum(d, v * u, v, u);
  }

  lemma ProductOfSums(x: nat, y: nat, d: nat, v: nat, u: nat)
    requires x == 1 + d * v && y == 1 + d * u
    ensures x * y == 1 + d * (v + u + d * (v * u))
  {
    var a, b := d * v, d * u;
    Expanded(a, b);
    SquareFactored(d, v, u);
    FactorTaken(d, v, u, d * (v * u));
  }

  lemma Expanded(a: nat, b: nat)
    ensures (1 + a) * (1 + b) == 1 + a + b + a * b
  {
  }

  lemma SquareFactored(d: nat, v: nat, u: nat)
    ensures d * v * (d * u) == d * (d * (v * u))
  {
  }

  lemma FactorTaken(d: nat, x: nat, y: nat, z: nat)
    ensures d * (x + y + z) == d * x + d * y + d * z
  {
  }

  lemma ParityOfSum(d: nat, z: nat, v: nat, u: nat)
    requires d % 2 == 0 && u % 2 == 1
    ensures (v + u + d * z) % 2 == (v + 1) % 2
  {
    assert d * z == 2 * (d / 2 * z);
  }

  lemma {:induction false} OddPart(n: nat) returns (k: nat, o: nat)
    requires n > 0
    ensures n == Pow2(k) * o && o % 2 == 1
    ensures k == 0 ==> n == o
  {
    if n % 2 == 1 {
      k, o := 0, n;
    } else {
      k, o := OddPart(n / 2);
      assert 2 * (Pow2(k) * o) == 2 * Pow2(k) * o;
      k := k + 1;
    }
  }

  /** Unless 2^62 divides `n`, the n-th power of the prime differs from one in some bit of the word. */
  lemma PowerDiffers(n: nat) returns (j: nat, w: nat)
    requires n % Pow2(62) != 0
    ensures j < 64 && w % 2 == 1 && Power(FNV_PRIME, n) == 1 + Pow2(j) * w
  {
    hide Pow2, Power;
    var k, o := OddPart(n);
    if k == 0 {
      j := 1;
      w := OddPower(n);
    } else {
      j := k + 2;
      w := PrimeToMultiple(k, o, n);
      if k >= 62 {
        HighPowerDivides(k, o);
      }
    }
  }

  lemma HighPowerDivides(k: nat, o: nat)
    requires k >= 62
    ensures Pow2(k) * o % Pow2(62) == 0
  {
    hide Pow2;
    PowerOfSum(62, k - 62);
    Reassociate(Pow2(62), Pow2(k - 62), o);
    RemainderIs(Pow2(k) * o, Pow2(62), Pow2(k - 62) * o, 0);
  }

  lemma OddPower(n: nat) returns (w: nat)
    requires n % 2 == 1
    ensures w % 2 == 1 && Power(FNV_PRIME, n) == 1 + Pow2(1) * w
  {
    var v := PrimeToMultiple(1, n / 2, n - 1);
    assert Pow2(1) == 2 && Pow2(3) == 8;
    assert Power(FNV_PRIME, n) == Power(FNV_PRIME, n - 1) * FNV_PRIME;
    hide Power, Pow2;
    w := TimesPrime(v);
  }

  lemma TimesPrime(v: nat) returns (w: nat)
    ensures (1 + 8 * v) * FNV_PRIME == 1 + 2 * w && w % 2 == 1
  {
    assert (1 + 8 * v) * FNV_PRIME == FNV_PRIME + v * (8 * FNV_PRIME);
    w := 0x80000000d9 + 0x400000006cc * v;
  }

  lemma OddMultipleIsSeen(j: nat, w: nat)
    requires j < 64 && w % 2 == 1
    ensures FNV_OFFSET_BASIS * (1 + Pow2(j) * w) % UINT64_MOD != FNV_OFFSET_BASIS
  {
    WordPowers();
    PowerOfSum(j, 63 - j);
    assert Pow2(64) == 2 * Pow2(63);
    hide Pow2;
    OddTimesOdd(FNV_OFFSET_BASIS, w);
    OddMultipleRemains(FNV_OFFSET_BASIS, Pow2(j), Pow2(63 - j), w);
  }

  lemma OddTimesOdd(x: nat, y: nat)
    requires x % 2 == 1 && y % 2 == 1
    ensures x * y % 2 == 1
  {
    assert x * y == 2 * (x / 2 * y) + y;
  }

  lemma OddMultipleRemains(x: word, d: nat, e: nat, w: nat)
    requires 2 * (d * e) == UINT64_MOD && x * w % 2 == 1
    ensures x * (1 + d * w) % UINT64_MOD != x
  {
    var y := x * (1 + d * w);
    if y % UINT64_MOD == x {
      var q := y / UINT64_MOD;
      Distribute(x, d, w);
      WholeWords(d, e, q);
      OddIsNotEven(d, x * w, e * q);
    }
  }

  lemma Distribute(x: nat, d: nat, w: nat)
    ensures x * (1 + d * w) == x + d * (x * w)
  {
    assert x * (d * w) == d * (x * w);
  }

  lemma WholeWords(d: nat, e: nat, q: nat)
    ensures 2 * (d * e) * q == d * (2 * (e * q))
  {
  }

  lemma OddIsNotEven(d: nat, x: nat, y: nat)
    requires d > 0 && x % 2 == 1
    ensures d * x != d * (2 * y)
  {
    SmallMultiple(d, x - 2 * y);
    Factored(d, x, 2 * y);
  }

  /** Zero bytes bring the hash back to the offset basis exactly after every 2^62 of them. */
  lemma ZerosHashToBasisIff(n: nat)
    ensures Hash(Zeros(n)) == FNV_OFFSET_BASIS <==> n % Pow2(62) == 0
  {
    HashOfZeros(FNV_OFFSET_BASIS, n);
    hide Pow2, Power, HashFrom;
    if n % Pow2(62) == 0 {
      var o := n / Pow2(62);
      var w := PrimeToMultiple(62, o, n);
      WordPowers();
      OneModWord(FNV_OFFSET_BASIS, w);
    } else {
      var j, w := PowerDiffers(n);
      OddMultipleIsSeen(j, w);
    }
  }

  lemma ZerosMod64(n: nat, r: nat)
    requires Hash(Zeros(n)) % 64 == r
    ensures Hash(Zeros(n + 1)) % 64 == r * 51 % 64
  {
    assert Zeros(n + 1) == Zeros(n) + [0];
    HashSnoc(Zeros(n), 0);
    ZeroByteMultiplies(Hash(Zeros(n)));
    hide AddByte, Hash;
    ProductMod64(Hash(Zeros(n)));
  }

  lemma BasisMod64()
    ensures Hash(Zeros(0)) % 64 == 37
  {
    assert Zeros(0) == [];
    HashOfNothing();
  }

  lemma SevenZerosGiveN()
    ensures Digit(Hash(Zeros(7))) == 'n'
  {
    hide Hash, Zeros;
    BasisMod64();
    ZerosMod64(0, 37);
    ZerosMod64(1, 31);
    ZerosMod64(2, 45);
    ZerosMod64(3, 55);
    ZerosMod64(4, 53);
    ZerosMod64(5, 15);
    ZerosMod64(6, 61);
  }
}
