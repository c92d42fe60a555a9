/** The rolling checksum of src/ctph.c (`rh_state`, `rh_init`, `rh_add_byte`), proved to be
    Adler-32 as sections 2.2 and 8.2 of RFC 1950 define it. */
module RollingHash {
  import opened Words

  const MOD_ADLER := 65521

  // ---------- Adler-32 in closed form ----------

  function Sum(s: seq<byte>): nat {
    if s == [] then 0 else s[0] as nat + Sum(s[1..])
  }

  /** n*s[0] + (n-1)*s[1] + ... + 1*s[n-1] */
  function WeightedSum(s: seq<byte>): nat {
    if s == [] then 0 else |s| * s[0] as nat + WeightedSum(s[1..])
  }

  function A(s: seq<byte>): nat {
    (1 + Sum(s)) % MOD_ADLER
  }

  function B(s: seq<byte>): nat {
    (|s| + WeightedSum(s)) % MOD_ADLER
  }

  /** The 32-bit value tested for a trigger; only meaningful after at least one byte. */
  function Checksum(s: seq<byte>): nat {
    0x1_0000 * B(s) + A(s)
  }

  lemma ChecksumFitsItsWords(s: seq<byte>)
    ensures A(s) < UINT16_MOD && B(s) < UINT16_MOD && Checksum(s) < 0x1_0000_0000
  {
  }

  lemma HalvesFit(s: seq<byte>)
    ensures A(s) < MOD_ADLER && B(s) < MOD_ADLER
  {
  }

  lemma {:induction false} SumConcat(s: seq<byte>, t: seq<byte>)
    ensures Sum(s + t) == Sum(s) + Sum(t)
  {
    if s == [] {
      assert s + t == t;
    } else {
      assert (s + t)[1..] == s[1..] + t;
      SumConcat(s[1..], t);
    }
  }

  lemma {:induction false} WeightedSumConcat(s: seq<byte>, t: seq<byte>)
    ensures WeightedSum(s + t) == WeightedSum(s) + |t| * Sum(s) + WeightedSum(t)
  {
    if s == [] {
      assert s + t == t;
    } else {
      assert (s + t)[1..] == s[1..] + t && |s + t| == |s| + |t|;
      WeightedSumConcat(s[1..], t);
      Distribute(|s|, |t|, s[0] as nat, Sum(s[1..]));
    }
  }

  lemma Distribute(m: int, n: int, x: int, y: int)
    ensures (m + n) * x == m * x + n * x
    ensures n * (x + y) == n * x + n * y
  {
  }

  lemma ModOfSum(x: int, y: int)
    ensures (x % MOD_ADLER + y) % MOD_ADLER == (x + y) % MOD_ADLER
  {
  }

  lemma {:induction false} ModOfProduct(n: nat, x: int)
    ensures (n * (x % MOD_ADLER)) % MOD_ADLER == (n * x) % MOD_ADLER
  {
    if n == 0 {
    } else {
      ModOfProduct(n - 1, x);
      var r := x % MOD_ADLER;
      Distribute(n - 1, 1, r, 0);
      Distribute(n - 1, 1, x, 0);
      ModsAgree((n - 1) * r, (n - 1) * x, r, x);
    }
  }

  lemma ModsAgree(x: int, x': int, y: int, y': int)
    requires x % MOD_ADLER == x' % MOD_ADLER && y % MOD_ADLER == y' % MOD_ADLER
    ensures (x + y) % MOD_ADLER == (x' + y') % MOD_ADLER
  {
    ModOfSum(x, y);
    ModOfSum(x', y);
    ModOfSum(y, x');
    ModOfSum(y', x');
  }

  /** The checksum of two streams put together, from the checksums of the two alone. */
  lemma ChecksumConcat(s: seq<byte>, t: seq<byte>)
    ensures A(s + t) == (A(s) + A(t) - 1) % MOD_ADLER
    ensures B(s + t) == (B(s) + B(t) + |t| * (A(s) - 1)) % MOD_ADLER
  {
    hide Sum, WeightedSum;
    SumConcat(s, t);
    WeightedSumConcat(s, t);
    AConcat(Sum(s), Sum(t));
    BConcat(|s|, |t|, WeightedSum(s), WeightedSum(t), Sum(s), A(s), B(s), B(t), |s + t| + WeightedSum(s + t));
  }

  lemma AConcat(x: nat, y: nat)
    ensures (1 + x + y) % MOD_ADLER == ((1 + x) % MOD_ADLER + (1 + y) % MOD_ADLER - 1) % MOD_ADLER
  {
  }

  lemma BConcat(m: nat, n: nat, w: nat, w': nat, sum: nat, a: int, b: int, b': int, total: int)
    requires a == (1 + sum) % MOD_ADLER && b == (m + w) % MOD_ADLER && b' == (n + w') % MOD_ADLER
    requires total == m + n + w + n * sum + w'
    ensures total % MOD_ADLER == (b + b' + n * (a - 1)) % MOD_ADLER
  {
    ProductsAgree(n, sum);
    ModsAgree(b, m + w, b', n + w');
    ModsAgree(b + b', m + w + (n + w'), n * (a - 1), n * sum);
  }

  lemma ProductsAgree(n: nat, sum: nat)
    ensures (n * ((1 + sum) % MOD_ADLER - 1)) % MOD_ADLER == (n * sum) % MOD_ADLER
  {
    ModOfProduct(n, 1 + sum);
    Distribute(0, n, (1 + sum) % MOD_ADLER, -1);
    Distribute(0, n, 1, sum);
    ModsAgree(n * ((1 + sum) % MOD_ADLER), n * (1 + sum), 0 - n, 0 - n);
  }

  lemma ChecksumStep(s: seq<byte>, byte: byte)
    ensures A(s + [byte]) == (A(s) + byte as nat) % MOD_ADLER
    ensures B(s + [byte]) == (B(s) + A(s + [byte])) % MOD_ADLER
  {
    hide Sum, WeightedSum;
    SumConcat(s, [byte]);
    WeightedSumConcat(s, [byte]);
    SumsOfOneByte(byte);
    Step(|s|, WeightedSum(s), Sum(s), byte as nat, |s + [byte]| + WeightedSum(s + [byte]));
  }

  lemma SumsOfOneByte(byte: byte)
    ensures Sum([byte]) == byte as nat && WeightedSum([byte]) == byte as nat
  {
  }

  lemma Step(n: nat, w: nat, sum: nat, x: nat, total: nat)
    requires total == n + 1 + (w + sum + x)
    ensures (1 + (sum + x)) % MOD_ADLER == ((1 + sum) % MOD_ADLER + x) % MOD_ADLER
    ensures total % MOD_ADLER == ((n + w) % MOD_ADLER + (1 + (sum + x)) % MOD_ADLER) % MOD_ADLER
  {
    ModOfSum(1 + sum, x);
    ModsAgree((n + w) % MOD_ADLER, n + w, (1 + (sum + x)) % MOD_ADLER, 1 + (sum + x));
  }

  // ---------- Behind different prefixes ----------

  /** Behind the same bytes, two streams have the same checksum if and only if both halves were the
      same before them: nothing is ever forgotten. */
  lemma SuffixChecksumIff(p: seq<byte>, q: seq<byte>, t: seq<byte>)
    ensures Checksum(p + t) == Checksum(q + t) <==> A(p) == A(q) && B(p) == B(q)
  {
    ChecksumConcat(p, t);
    ChecksumConcat(q, t);
    ChecksumHalves(p + t, q + t);
    SummandsDecide(A(p), A(q), A(t) - 1);
    if A(p) == A(q) {
      SummandsDecide(B(p), B(q), B(t) + |t| * (A(p) - 1));
    }
  }

  lemma ChecksumHalves(s: seq<byte>, t: seq<byte>)
    ensures Checksum(s) == Checksum(t) <==> A(s) == A(t) && B(s) == B(t)
  {
  }

  lemma SummandsDecide(x: int, y: int, z: int)
    requires 0 <= x < MOD_ADLER && 0 <= y < MOD_ADLER
    ensures (x + z) % MOD_ADLER == (y + z) % MOD_ADLER <==> x == y
  {
  }

  /** One more byte leaves the first half as it was only if it is zero, and both halves only if
      the first half is zero too. */
  lemma OneMoreByteKeepsHalvesIff(p: seq<byte>, x: byte)
    ensures A(p + [x]) == A(p) <==> x == 0
    ensures A(p + [x]) == A(p) && B(p + [x]) == B(p) <==> x == 0 && A(p) == 0
  {
    ChecksumStep(p, x);
    HalvesFit(p);
    SummandsDecide(x as nat, 0, A(p));
    SummandsDecide(A(p), 0, B(p));
    ByteIsZero(x);
  }

  lemma ByteIsZero(x: byte)
    ensures x as nat == 0 <==> x == 0
  {
  }

  lemma {:induction false} SumsOfZeros(n: nat)
    ensures Sum(Zeros(n)) == 0 && WeightedSum(Zeros(n)) == 0
  {
    if n == 0 {
    } else {
      assert Zeros(n)[1..] == Zeros(n - 1);
      SumsOfZeros(n - 1);
    }
  }

  lemma ChecksumOfZeros(n: nat)
    ensures A(Zeros(n)) == 1 && Checksum(Zeros(n)) % 2 == 1
  {
    SumsOfZeros(n);
  }

  lemma SecondHalfOfZeros(n: nat)
    ensures B(Zeros(n)) == n % MOD_ADLER
  {
    SumsOfZeros(n);
  }

  lemma {:induction false} SumOfOnes(n: nat)
    ensures Sum(Ones(n)) == n
  {
    if n == 0 {
    } else {
      assert Ones(n)[1..] == Ones(n - 1);
      SumOfOnes(n - 1);
    }
  }

  lemma OnesBehind(p: seq<byte>, n: nat)
    ensures A(p + Ones(n)) == (A(p) + n) % MOD_ADLER
  {
    SumOfOnes(n);
    ChecksumConcat(p, Ones(n));
    ModOfSum(1 + n, A(p) - 1);
  }

  lemma ZerosBehind(p: seq<byte>, n: nat)
    ensures A(p + Zeros(n)) == A(p)
    ensures B(p + Zeros(n)) == (B(p) + n * A(p)) % MOD_ADLER
  {
    HalvesFit(p);
    ChecksumOfZeros(n);
    SecondHalfOfZeros(n);
    hide A, B;
    ChecksumConcat(p, Zeros(n));
    ZerosAdded(B(p), n, A(p));
  }

  lemma ZerosAdded(b: int, n: nat, a: int)
    ensures (b + n % MOD_ADLER + n * (a - 1)) % MOD_ADLER == (b + n * a) % MOD_ADLER
  {
    Distribute(0, n, a, -1);
    ModOfSum(n, b + n * (a - 1));
  }

  /** From every state some bytes lead to the checksum zero. */
  lemma SuffixToZero(p: seq<byte>) returns (t: seq<byte>)
    ensures t != [] && A(p + t) == 0 && B(p + t) == 0
  {
    HalvesFit(p);
    hide A, B;
    var n := MOD_ADLER - 1 - A(p);
    var p1 := p + Ones(n);
    OnesBehind(p, n);
    var k := B(p1);
    ZerosBehind(p1, k);
    WholeMultiple(k);
    var p2 := p1 + Zeros(k);
    ChecksumStep(p2, 1);
    t := Ones(n) + Zeros(k) + [1];
    assert p + t == p2 + [1];
  }

  lemma WholeMultiple(k: nat)
    ensures (k + k * (MOD_ADLER - 1)) % MOD_ADLER == 0
  {
    assert k + k * (MOD_ADLER - 1) == MOD_ADLER * k;
    RemainderIs(MOD_ADLER * k, MOD_ADLER, k, 0);
  }

  /** Where the first halves are equal, the second ones keep their difference. */
  lemma DifferenceIsKept(p: seq<byte>, q: seq<byte>, t: seq<byte>)
    requires A(p) == A(q)
    ensures A(p + t) == A(q + t)
    ensures B(p + t) == 0 ==> B(q + t) == (B(q) - B(p)) % MOD_ADLER
  {
    ChecksumConcat(p, t);
    ChecksumConcat(q, t);
    Difference(B(p), B(q), B(t) + |t| * (A(p) - 1));
  }

  lemma Difference(x: int, y: int, z: int)
    ensures (x + z) % MOD_ADLER == 0 ==> (y + z) % MOD_ADLER == (y - x) % MOD_ADLER
  {
  }

  /** Up to 2^16 the second half of the checksum plays no part. */
  lemma SmallPowerDividesIff(s: seq<byte>, j: nat)
    requires j <= 16
    ensures Checksum(s) % Pow2(j) == 0 <==> A(s) % Pow2(j) == 0
  {
    hide A, B;
    var d, e := Pow2(j), Pow2(16 - j);
    PowerOfSum(j, 16 - j);
    WordPowers();
    MultipleAdded(d, e, B(s), A(s));
  }

  /** From 2^16 on, no first half but zero will do. */
  lemma LargePowerDividesIff(s: seq<byte>, j: nat)
    requires j >= 16
    ensures Checksum(s) % Pow2(j) == 0 <==> A(s) == 0 && B(s) % Pow2(j - 16) == 0
  {
    hide B;
    PowerOfSum(16, j - 16);
    WordPowers();
    LowPartVanishes(B(s), A(s), Pow2(j - 16));
  }

  /** From 2^32 on a power of two divides no checksum but zero. */
  lemma HugePowerDividesIff(s: seq<byte>, j: nat)
    requires j >= 32
    ensures Checksum(s) % Pow2(j) == 0 <==> Checksum(s) == 0
  {
    ChecksumFitsItsWords(s);
    WordPowers();
    hide Pow2, Checksum;
    PowerOfSum(16, 16);
    PowerOfSum(32, j - 32);
    LargeModulus(Checksum(s), Pow2(32), Pow2(j - 32));
  }

  lemma LargeModulus(x: nat, m: nat, r: nat)
    requires x < m && r > 0
    ensures x % (m * r) == x
  {
    Engulfs(m, r);
    RemainderIs(x, m * r, 0, x);
  }

  lemma Engulfs(m: nat, r: nat)
    requires r > 0
    ensures m <= m * r
  {
  }

  lemma MultipleAdded(d: nat, e: nat, b: nat, a: nat)
    requires d > 0
    ensures (d * e * b + a) % d == a % d
  {
    assert d * e * b == d * (e * b);
    assert a == d * (a / d) + a % d;
    assert d * (e * b) + d * (a / d) == d * (e * b + a / d);
    RemainderIs(d * e * b + a, d, e * b + a / d, a % d);
  }

  lemma LowPartVanishes(b: nat, a: nat, f: nat)
    requires a < 0x1_0000 && f > 0
    ensures (0x1_0000 * b + a) % (0x1_0000 * f) == 0 <==> a == 0 && b % f == 0
  {
    var q, r := b / f, b % f;
    assert 0x1_0000 * b == 0x1_0000 * f * q + 0x1_0000 * r;
    RemainderIs(0x1_0000 * b + a, 0x1_0000 * f, q, 0x1_0000 * r + a);
  }

  lemma MultipleOfEven(x: nat, e: nat)
    requires e > 0 && e % 2 == 0
    ensures x % e == 0 ==> x % 2 == 0
  {
    if x % e == 0 {
      assert x == 2 * (e / 2) * (x / e);
      assert x == 2 * ((e / 2) * (x / e));
    }
  }

  /** Of the two differences of different second halves, one is odd. */
  lemma OneDifferenceRemains(x: nat, y: nat, e: nat)
    requires x < MOD_ADLER && y < MOD_ADLER && x != y && e > 0 && e % 2 == 0
    ensures 0 % e == 0
    ensures (y - x) % MOD_ADLER % e == 0 ==> (x - y) % MOD_ADLER % e != 0
  {
    assert (y - x) % MOD_ADLER + (x - y) % MOD_ADLER == MOD_ADLER;
    MultipleOfEven((y - x) % MOD_ADLER, e);
    MultipleOfEven((x - y) % MOD_ADLER, e);
  }

  /** Some number of ones brings exactly one of two different first halves to a multiple of `e`. */
  lemma OnesSeparate(x: nat, y: nat, e: nat) returns (n: nat)
    requires x < MOD_ADLER && y < MOD_ADLER && x != y && e > 0 && e % 2 == 0
    ensures n > 0 && ((x + n) % MOD_ADLER % e == 0 <==> (y + n) % MOD_ADLER % e != 0)
  {
    OneDifferenceRemains(x, y, e);
    OnesLeaveDifference(x, y);
    OnesLeaveDifference(y, x);
    n := if (y - x) % MOD_ADLER % e == 0 then MOD_ADLER - y else MOD_ADLER - x;
  }

  lemma OnesLeaveDifference(x: nat, y: nat)
    ensures (x + (MOD_ADLER - x)) % MOD_ADLER == 0
    ensures (y + (MOD_ADLER - x)) % MOD_ADLER == (y - x) % MOD_ADLER
  {
    ModOfSum(MOD_ADLER, y - x);
  }

  /** Of two streams with different second halves, some bytes bring exactly one to a checksum with
      first half zero and a multiple of `e` as second half, and the other to first half zero only. */
  lemma SecondHalfSeparates(p: seq<byte>, q: seq<byte>, e: nat) returns (t: seq<byte>)
    requires A(p) == A(q) && B(p) != B(q) && e > 0 && e % 2 == 0
    ensures t != [] && A(p + t) == 0 && A(q + t) == 0
    ensures B(p + t) % e == 0 <==> B(q + t) % e != 0
  {
    HalvesFit(p);
    HalvesFit(q);
    hide A, B;
    OneDifferenceRemains(B(p), B(q), e);
    if (B(q) - B(p)) % MOD_ADLER % e != 0 {
      t := SuffixToZero(p);
      DifferenceIsKept(p, q, t);
    } else {
      t := SuffixToZero(q);
      DifferenceIsKept(q, p, t);
    }
  }

  // ---------- The numbers ----------

  /** The published test vector of Adler-32 for "abc". */
  lemma TestVector()
    ensures Checksum([0x61, 0x62, 0x63]) == 0x24d0127
  {
    var t: seq<byte> := [0x61, 0x62, 0x63];
    assert t[1..] == [0x62, 0x63] && t[2..] == [0x63];
    assert Sum(t[2..]) == 0x63 && WeightedSum(t[2..]) == 0x63;
    assert Sum(t[1..]) == 0xc5 && WeightedSum(t[1..]) == 0x127;
  }

  /** The modulus in numbers: 65520 ones bring the first half back to zero, and one less does not. */
  lemma ModulusIs65521()
    ensures A(Ones(65_519)) == 65_520 && A(Ones(65_520)) == 0
  {
    SumOfOnes(65_519);
    SumOfOnes(65_520);
  }

  // ---------- The running state ----------

  class State {
    var a: nat
    var b: nat
    var h: nat
    ghost var stream: seq<byte>

    ghost predicate Valid()
      reads this
    {
      && a == A(stream)
      && b == B(stream)
      && h == if stream == [] then 0 else Checksum(stream)
    }

    constructor ()
      ensures Valid() && stream == []
      ensures a == 1 && b == 0 && h == 0
    {
      a, b, h := 1, 0, 0;
      stream := [];
    }

    method AddByte(byte: byte)
      requires Valid()
      modifies this
      ensures Valid() && stream == old(stream) + [byte]
    {
      ChecksumStep(stream, byte);
      a := (a + byte as nat) % MOD_ADLER;
      b := (b + a) % MOD_ADLER;
      h := b * 0x1_0000 + a;
      stream := stream + [byte];
    }
  }
}
