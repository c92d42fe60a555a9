/** Comparing and printing similarity hashes, from src/simhash.c (`compare_hash`,
    `simhash_to_string`, `simhash_string_to_uint`, `simhash_compare`). */
module SimHashScore {
  import opened Words
  import opened Elf
  import opened SimHash

  const SIM_HASH_SIZE := 16

  type Hash = h: seq<byte> | |h| == SIM_HASH_SIZE witness [0, 0, 0, 0, 0, 0, 0, 0, 0, 0, 0, 0, 0, 0, 0, 0]

  // ---------- Hamming distance ----------

  /** The number of set bits from bit `b` up, as `__builtin_popcountll` counts them. */
  function Popcount(x: byte, b: nat): nat
    requires b <= 8
    decreases 8 - b
  {
    if b == 8 then 0 else (if Bit(x, b) then 1 else 0) + Popcount(x, b + 1)
  }

  /** In how many of the bits from bit `k` up the hashes differ. */
  function Hamming(x: Hash, y: Hash, k: nat): nat
    requires k <= HASH_BITS
    decreases HASH_BITS - k
  {
    if k == HASH_BITS then 0 else (if BitAt(x, k) != BitAt(y, k) then 1 else 0) + Hamming(x, y, k + 1)
  }

  lemma BitOfXor(x: byte, y: byte, b: nat)
    requires b < 8
    ensures Bit(x ^ y, b) <==> Bit(x, b) != Bit(y, b)
  {
    ShiftOfXor(x, y, b);
    LowBitOfXor(x >> b, y >> b);
  }

  lemma ShiftOfXor(x: byte, y: byte, b: nat)
    requires b < 8
    ensures (x ^ y) >> b == (x >> b) ^ (y >> b)
  {
  }

  lemma LowBitOfXor(x: byte, y: byte)
    ensures (x ^ y) & 1 == 1 <==> (x & 1 == 1) != (y & 1 == 1)
  {
  }

  lemma {:induction false} PopcountOfXor(x: Hash, y: Hash, i: nat, b: nat)
    requires i < SIM_HASH_SIZE && b <= 8
    ensures Hamming(x, y, 8 * i + b) == Popcount(x[i] ^ y[i], b) + Hamming(x, y, 8 * i + 8)
    decreases 8 - b
  {
    hide Bit, BitAt;
    if b == 8 {
    } else {
      BitsDiffer(x, y, i, b);
      HammingUnfolded(x, y, 8 * i + b);
      hide Hamming;
      PopcountOfXor(x, y, i, b + 1);
    }
  }

  lemma BitsDiffer(x: Hash, y: Hash, i: nat, b: nat)
    requires i < SIM_HASH_SIZE && b < 8
    ensures BitAt(x, 8 * i + b) != BitAt(y, 8 * i + b) <==> Bit(x[i] ^ y[i], b)
  {
    hide Bit;
    BitIndex(i, b);
    BitOfXor(x[i], y[i], b);
  }

  lemma HammingUnfolded(x: Hash, y: Hash, k: nat)
    requires k < HASH_BITS
    ensures Hamming(x, y, k) == (if BitAt(x, k) != BitAt(y, k) then 1 else 0) + Hamming(x, y, k + 1)
  {
  }

  lemma {:induction false} HammingSymmetric(x: Hash, y: Hash, k: nat)
    requires k <= HASH_BITS
    ensures Hamming(x, y, k) == Hamming(y, x, k)
    decreases HASH_BITS - k
  {
    hide BitAt;
    if k == HASH_BITS {
    } else {
      HammingSymmetric(x, y, k + 1);
    }
  }

  lemma {:induction false} HammingTriangle(x: Hash, y: Hash, z: Hash, k: nat)
    requires k <= HASH_BITS
    ensures Hamming(x, z, k) <= Hamming(x, y, k) + Hamming(y, z, k)
    decreases HASH_BITS - k
  {
    hide BitAt;
    if k == HASH_BITS {
    } else {
      HammingTriangle(x, y, z, k + 1);
    }
  }

  lemma {:induction false} HammingZero(x: Hash, y: Hash, k: nat)
    requires k <= HASH_BITS
    ensures Hamming(x, y, k) == 0 <==> forall i :: k <= i < HASH_BITS ==> BitAt(x, i) == BitAt(y, i)
    decreases HASH_BITS - k
  {
    hide BitAt;
    if k == HASH_BITS {
    } else {
      HammingZero(x, y, k + 1);
    }
  }

  lemma HammingZeroIffEqual(x: Hash, y: Hash)
    ensures Hamming(x, y, 0) == 0 <==> x == y
  {
    hide Bit, Hamming;
    HammingZero(x, y, 0);
    if Hamming(x, y, 0) == 0 {
      forall i | 0 <= i < SIM_HASH_SIZE ensures x[i] == y[i] {
        forall b | 0 <= b < 8 ensures Bit(x[i], b) == Bit(y[i], b) {
          BitIndex(i, b);
          assert BitAt(x, i * 8 + b) == BitAt(y, i * 8 + b);
        }
        BitsDetermineByte(x[i], y[i]);
      }
    }
  }

  /** The distance is the number of bits in which the hashes differ. */
  lemma {:induction false} HammingCounts(x: Hash, y: Hash, k: nat)
    requires k <= HASH_BITS
    ensures Hamming(x, y, k) == |set i | k <= i < 128 && BitAt(x, i) != BitAt(y, i)|
    decreases HASH_BITS - k
  {
    hide BitAt;
    var differing := set i | k <= i < 128 && BitAt(x, i) != BitAt(y, i);
    if k == HASH_BITS {
      assert differing == {};
    } else {
      HammingCounts(x, y, k + 1);
      var rest := set i | k + 1 <= i < 128 && BitAt(x, i) != BitAt(y, i);
      assert differing == if BitAt(x, k) != BitAt(y, k) then rest + {k} else rest;
    }
  }

  // ---------- The score ----------

  /** 100 less 25/16 for each differing bit, and not below zero. */
  function Score(distance: nat): real {
    if distance >= 64 then 0.0 else 100.0 - 25.0 * distance as real / 16.0
  }

  method CompareHash(hash1: Hash, hash2: Hash) returns (res: real)
    ensures res == Score(Hamming(hash1, hash2, 0))
  {
    hide Hamming, Popcount;
    var dist := 0;
    HammingOfNothing(hash1, hash2);
    for i := 0 to SIM_HASH_SIZE
      invariant dist + Hamming(hash1, hash2, 8 * i) == Hamming(hash1, hash2, 0)
    {
      PopcountOfXor(hash1, hash2, i, 0);
      var xorVal := hash1[i] ^ hash2[i];
      dist := dist + Popcount(xorVal, 0);
    }
    res := (1.0 - dist as real / 128.0) * 100.0;
    if res < 50.0 {
      res := 50.0;
    }
    var min, max, threshold := 0.0, 100.0, 50.0;
    res := ((max - min) * (res - threshold)) / (max - threshold) + min;
  }

  lemma HammingOfNothing(x: Hash, y: Hash)
    ensures Hamming(x, y, HASH_BITS) == 0
  {
  }

  /** The score is symmetric, 100 exactly for equal hashes, 0 exactly from half of the bits on, and
      what is missing to 100 satisfies the triangle inequality. */
  lemma ScoreIsSimilarity(x: Hash, y: Hash, z: Hash)
    ensures Score(Hamming(x, y, 0)) == Score(Hamming(y, x, 0))
    ensures Score(Hamming(x, y, 0)) == 100.0 <==> x == y
    ensures Score(Hamming(x, y, 0)) == 0.0 <==> Hamming(x, y, 0) >= 64
    ensures 100.0 - Score(Hamming(x, z, 0)) <= (100.0 - Score(Hamming(x, y, 0))) + (100.0 - Score(Hamming(y, z, 0)))
  {
    hide Hamming;
    HammingSymmetric(x, y, 0);
    HammingZeroIffEqual(x, y);
    HammingTriangle(x, y, z, 0);
  }

  /** Any two files without a window match perfectly. */
  lemma WindowlessFilesScore100(hash1: Hash, hash2: Hash, md5: DigestFunction, data1: ElfData, data2: ElfData)
    requires IsSimHash(hash1, md5, data1) && IsSimHash(hash2, md5, data2)
    requires forall k :: 0 <= k < SECTION_END ==> |data1[k]| <= SHINGLE_SIZE[k] && |data2[k]| <= SHINGLE_SIZE[k]
    ensures Score(Hamming(hash1, hash2, 0)) == 100.0
  {
    hide Hamming, IsSimHash;
    WindowlessHashIsZero(hash1, md5, data1);
    WindowlessHashIsZero(hash2, md5, data2);
    ScoreIsSimilarity(hash1, hash2, hash1);
  }

  /** The quotient and its complement are 128ths, which double precision represents exactly; from the
      product on, which is the first value in single precision, all values are 32nds below 2^18. So exact
      arithmetic and the floating-point arithmetic of the source agree. */
  lemma ScoreIsExactInBinary(distance: nat)
    requires distance <= HASH_BITS
    ensures
      var res := (1.0 - distance as real / 128.0) * 100.0;
      && 128.0 * (distance as real / 128.0) == distance as real
      && 128.0 * (1.0 - distance as real / 128.0) == (128 - distance) as real
      && 32.0 * res == (3200 - 25 * distance) as real
      && 32.0 * (100.0 * (res - 50.0)) == (160_000 - 2_500 * distance) as real
      && 16.0 * Score(distance) == (if distance >= 64 then 0 else 1_600 - 25 * distance) as real
  {
  }

  // ---------- Hexadecimal text ----------

  function HexDigit(v: nat): char
    requires v < 16
  {
    if v < 10 then ('0' as int + v) as char else ('a' as int + (v - 10)) as char
  }

  predicate IsHexDigit(c: char) {
    '0' <= c <= '9' || 'a' <= c <= 'f' || 'A' <= c <= 'F'
  }

  function HexValue(c: char): (v: nat)
    requires IsHexDigit(c)
    ensures v < 16
  {
    if c <= '9' then c as int - '0' as int
    else if c <= 'F' then c as int - 'A' as int + 10
    else c as int - 'a' as int + 10
  }

  /** `strtol` of "0x" and two more characters: it stops at the first one that is no digit. */
  function Strtol(high: char, low: char): (v: nat)
    ensures v < 256
  {
    if !IsHexDigit(high) then 0
    else if !IsHexDigit(low) then HexValue(high)
    else 16 * HexValue(high) + HexValue(low)
  }

  function ToByte(v: nat): byte
    requires v < 256
  {
    v as byte
  }

  method SimhashToString(hash: Hash) returns (text: string)
    ensures text == HexText(hash)
  {
    var buffer := new char[2 * SIM_HASH_SIZE + 1];
    for i := 0 to SIM_HASH_SIZE
      invariant forall k :: 0 <= k < 2 * i ==> buffer[k] == HexText(hash)[k]
    {
      var v := hash[i] as nat;
      buffer[2 * i], buffer[2 * i + 1] := HexDigit(v / 16), HexDigit(v % 16);
      TextIndex(hash, i);
    }
    buffer[2 * SIM_HASH_SIZE] := '\0';
    text := buffer[..2 * SIM_HASH_SIZE];
  }

  function HexText(hash: Hash): (text: string)
    ensures |text| == 2 * SIM_HASH_SIZE
  {
    seq(2 * SIM_HASH_SIZE, k requires 0 <= k < 2 * SIM_HASH_SIZE =>
      var v := hash[k / 2] as nat;
      HexDigit(if k % 2 == 0 then v / 16 else v % 16))
  }

  lemma TextIndex(hash: Hash, i: nat)
    requires i < SIM_HASH_SIZE
    ensures HexText(hash)[2 * i] == HexDigit(hash[i] as nat / 16)
    ensures HexText(hash)[2 * i + 1] == HexDigit(hash[i] as nat % 16)
  {
  }

  /** Reads two characters for each byte; anything but a hexadecimal digit ends the number it stands
      in. The bytes behind a shorter text stay unset. */
  method SimhashStringToUint(text: CString) returns (hash: Hash)
    requires |text| <= 2 * SIM_HASH_SIZE && |text| % 2 == 0
    ensures ParsedBytes(text) <= hash
  {
    hide Strtol;
    var hashTab := new byte[SIM_HASH_SIZE];
    var i := 0;
    while CharAt(text, i) != '\0'
      invariant i % 2 == 0 && i <= |text|
      invariant forall k :: 0 <= k < i / 2 ==> hashTab[k] == ParsedBytes(text)[k]
      decreases |text| - i
    {
      hashTab[i / 2] := ToByte(Strtol(text[i], text[i + 1]));
      i := i + 2;
    }
    hash := hashTab[..];
  }

  function ParsedBytes(text: string): (bytes: seq<byte>)
    requires |text| % 2 == 0
    ensures |bytes| == |text| / 2
  {
    seq(|text| / 2, k requires 0 <= k < |text| / 2 => ToByte(Strtol(text[2 * k], text[2 * k + 1])))
  }

  function ParsedHash(text: string): Hash
    requires |text| == 2 * SIM_HASH_SIZE
  {
    ParsedBytes(text)
  }

  /** `simhash_compare` */
  method SimhashCompare(text1: CString, text2: CString) returns (res: real)
    requires |text1| == |text2| == 2 * SIM_HASH_SIZE
    ensures res == Score(Hamming(ParsedHash(text1), ParsedHash(text2), 0))
  {
    hide ParsedBytes, Hamming;
    var hash1 := SimhashStringToUint(text1);
    var hash2 := SimhashStringToUint(text2);
    assert hash1 == ParsedHash(text1) && hash2 == ParsedHash(text2);
    res := CompareHash(hash1, hash2);
  }

  /** Printing a hash and reading it back gives the hash, so comparing the texts compares the hashes. */
  lemma ParseUndoesPrint(hash: Hash)
    ensures '\0' !in HexText(hash)
    ensures ParsedHash(HexText(hash)) == hash
  {
    hide Strtol, HexText;
    forall i | 0 <= i < SIM_HASH_SIZE ensures ParsedHash(HexText(hash))[i] == hash[i] {
      TextIndex(hash, i);
      ByteRoundTrip(hash[i]);
    }
    forall k | 0 <= k < 2 * SIM_HASH_SIZE ensures HexText(hash)[k] != '\0' {
      TextIndex(hash, k / 2);
      HexDigitIsRead(hash[k / 2] as nat / 16);
      HexDigitIsRead(hash[k / 2] as nat % 16);
    }
  }

  lemma HexDigitIsRead(v: nat)
    requires v < 16
    ensures HexDigit(v) != '\0' && IsHexDigit(HexDigit(v)) && HexValue(HexDigit(v)) == v
  {
  }

  lemma ByteRoundTrip(b: byte)
    ensures Strtol(HexDigit(b as nat / 16), HexDigit(b as nat % 16)) == b as nat
    ensures ToByte(b as nat) == b
  {
    HexDigitIsRead(b as nat / 16);
    HexDigitIsRead(b as nat % 16);
  }

  // ---------- The characters ----------

  /** Lower-case digits are printed, and both cases are read. */
  lemma HexDigitsAre(v: nat)
    requires v < 16
    ensures HexDigit(v) == "0123456789abcdef"[v]
    ensures IsHexDigit("0123456789abcdef"[v]) && HexValue("0123456789abcdef"[v]) == v
    ensures IsHexDigit("0123456789ABCDEF"[v]) && HexValue("0123456789ABCDEF"[v]) == v
  {
  }

  lemma IsHexDigitIff(c: char)
    ensures IsHexDigit(c) <==> c in "0123456789abcdefABCDEF"
  {
  }

  /** A byte is read from two digits, from the first one if the second is none, and as zero if the
      first is none. */
  lemma StrtolCases(v: nat, w: nat, c: char, d: char)
    requires v < 16 && w < 16 && c !in "0123456789abcdefABCDEF"
    ensures Strtol(HexDigit(v), HexDigit(w)) == 16 * v + w
    ensures Strtol(HexDigit(v), c) == v
    ensures Strtol(c, d) == 0
  {
    hide HexDigit, IsHexDigit, HexValue;
    HexDigitIsRead(v);
    HexDigitIsRead(w);
    IsHexDigitIff(c);
  }

  lemma SomeTexts()
    ensures HexText([0x1a] + Zeros(15))[..4] == "1a00"
    ensures ParsedBytes("1a") == [0x1a] && ParsedBytes("1A") == [0x1a]
    ensures ParsedBytes("a-") == [0x0a] && ParsedBytes("-a") == [0]
  {
  }
}
