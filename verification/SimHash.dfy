/** The similarity hash of src/simhash.c (`compute_hash`): a majority vote, bit by bit, over the
    set of digests of all windows of the sections. The digest function is a parameter. */
module SimHash {
  import opened Words
  import opened Elf
  import opened Slots
  import ShingleTable

  /** How long the windows of each section are; a section that is no longer has one of its own length. */
  const SHINGLE_SIZE: seq<nat> := [ULONG_MAX, 1, ULONG_MAX, ULONG_MAX, 1, 20, ULONG_MAX]

  const HASH_BITS := 8 * MD5_LENGTH

  type DigestFunction = seq<byte> -> Digest

  // ---------- The digests of the windows ----------

  function WindowSize(i: nat, length: nat): (size: nat)
    requires i < SECTION_END
    ensures size <= length
  {
    if length < SHINGLE_SIZE[i] then length else SHINGLE_SIZE[i]
  }

  function Window(bytes: seq<byte>, size: nat, j: nat): seq<byte>
    requires j + size <= |bytes|
  {
    bytes[j..j + size]
  }

  /** The digests of the first `n` windows of a section. */
  function SectionDigests(md5: DigestFunction, bytes: seq<byte>, size: nat, n: nat): set<Digest>
    requires n + size <= |bytes| + 1
  {
    if n == 0 then {} else SectionDigests(md5, bytes, size, n - 1) + {md5(Window(bytes, size, n - 1))}
  }

  /** The digests of the first `i` sections. The last window of a section is left out, as in the source. */
  function DataDigests(md5: DigestFunction, data: ElfData, i: nat): set<Digest>
    requires i <= SECTION_END
  {
    if i == 0 then {}
    else
      var size := WindowSize(i - 1, |data[i - 1]|);
      DataDigests(md5, data, i - 1) + SectionDigests(md5, data[i - 1], size, |data[i - 1]| - size)
  }

  // ---------- Bits and votes ----------

  predicate Bit(x: byte, b: nat)
    requires b < 8
  {
    (x >> b) & 1 == 1
  }

  /** Bit `k` of a sequence of bytes, counted from the lowest bit of the first byte. */
  predicate BitAt(bytes: seq<byte>, k: nat)
    requires k < 8 * |bytes|
  {
    Bit(bytes[k / 8], k % 8)
  }

  function Ones(digests: set<Digest>, k: nat): set<Digest>
    requires k < HASH_BITS
  {
    set d | d in digests && BitAt(d, k)
  }

  /** Strictly more of the digests have bit `k` set than clear. */
  predicate Majority(digests: set<Digest>, k: nat)
    requires k < HASH_BITS
  {
    |Ones(digests, k)| > |digests - Ones(digests, k)|
  }

  function Vote(list: seq<Shingle>, k: nat): int
    requires k < HASH_BITS
  {
    if list == [] then 0 else Vote(list[..|list| - 1], k) + (if BitAt(list[|list| - 1].digest, k) then 1 else -1)
  }

  function DigestSet(list: seq<Shingle>): set<Digest> {
    if list == [] then {} else DigestSet(list[..|list| - 1]) + {list[|list| - 1].digest}
  }

  lemma {:induction false} InDigestSet(list: seq<Shingle>, d: Digest)
    ensures d in DigestSet(list) <==> exists i :: 0 <= i < |list| && list[i].digest == d
  {
    if list == [] {
    } else {
      var init := list[..|list| - 1];
      InDigestSet(init, d);
      assert forall i :: 0 <= i < |init| ==> list[i] == init[i];
    }
  }

  /** Among distinct digests the vote is the number of ones minus the number of zeros. */
  lemma {:induction false} VoteCountsSet(list: seq<Shingle>, k: nat)
    requires k < HASH_BITS && DistinctDigests(list)
    ensures Vote(list, k) == |Ones(DigestSet(list), k)| - |DigestSet(list) - Ones(DigestSet(list), k)|
  {
    hide BitAt;
    if list == [] {
    } else {
      var init, d := list[..|list| - 1], list[|list| - 1].digest;
      VoteCountsSet(init, k);
      InDigestSet(init, d);
      OnesOfLarger(DigestSet(init), d, k);
    }
  }

  lemma OnesOfLarger(s: set<Digest>, d: Digest, k: nat)
    requires k < HASH_BITS && d !in s
    ensures
      var more := s + {d};
      |Ones(more, k)| - |more - Ones(more, k)| ==
      |Ones(s, k)| - |s - Ones(s, k)| + (if BitAt(d, k) then 1 else -1)
  {
    hide BitAt;
    var more := s + {d};
    if BitAt(d, k) {
      assert Ones(more, k) == Ones(s, k) + {d};
      assert more - Ones(more, k) == s - Ones(s, k);
    } else {
      assert Ones(more, k) == Ones(s, k);
      assert more - Ones(more, k) == (s - Ones(s, k)) + {d};
    }
  }

  // ---------- Filling the table ----------

  /** The insert of `compute_hash`: a full table is expanded first. */
  method AddShingle(table: ShingleTable.Table, shingle: Shingle) returns (grown: ShingleTable.Table)
    requires table.Valid() && Build(table.table[..]) && 2 * table.eltCount <= ULONG_MAX
    modifies table, table.table
    ensures grown.Valid() && Build(grown.table[..])
    ensures Digests(grown.table[..]) == old(Digests(table.table[..])) + {shingle.digest}
    ensures grown.eltCount <= old(table.eltCount) + 1
    ensures (grown == table && grown.table == old(table.table)) || (fresh(grown) && fresh(grown.table))
  {
    hide Build, Digests, Shingles, Insertion, Count, IsFirst;
    grown := table;
    ghost var t := table.table[..];
    BuildIsDistinct(t);
    InsertFullIff(t, shingle);
    var code := table.Insert(shingle);
    if code == TableFull {
      grown := ShingleTable.ExpandSize(table);
      ghost var t' := grown.table[..];
      InsertIsSetInsert(t', shingle);
      code := grown.Insert(shingle);
    } else {
      InsertIsSetInsert(t, shingle);
    }
  }

  lemma BuildIsDistinct(t: seq<Slot>)
    requires t != [] && Build(t)
    ensures Distinct(t)
  {
  }

  /** Both loops over the windows. */
  method FillTable(data: ElfData, md5: DigestFunction, capacity: nat) returns (table: ShingleTable.Table)
    requires 0 < capacity <= ULONG_MAX && 2 * |Stream(data)| <= ULONG_MAX
    ensures fresh(table) && fresh(table.table)
    ensures table.Valid() && Build(table.table[..])
    ensures Digests(table.table[..]) == DataDigests(md5, data, SECTION_END)
  {
    hide Build, Digests, Shingles, Count, IsFirst, Concat;
    table := new ShingleTable.Table(capacity);
    for i := 0 to SECTION_END
      invariant fresh(table) && fresh(table.table) && table.Valid() && Build(table.table[..])
      invariant Digests(table.table[..]) == DataDigests(md5, data, i)
      invariant table.eltCount <= |Concat(data[..i])|
    {
      StreamIndex(data, i, 0);
      var shSize := SHINGLE_SIZE[i];
      if |data[i]| < SHINGLE_SIZE[i] {
        shSize := |data[i]|;
      }
      for j := 0 to |data[i]| - shSize
        invariant fresh(table) && fresh(table.table) && table.Valid() && Build(table.table[..])
        invariant Digests(table.table[..]) ==
                  DataDigests(md5, data, i) + SectionDigests(md5, data[i], shSize, j)
        invariant table.eltCount <= |Concat(data[..i])| + j
      {
        var sh := Shingle(md5(data[i][j..j + shSize]), Pointer(i, j), shSize);
        table := AddShingle(table, sh);
      }
    }
  }

  // ---------- Counting the votes ----------

  /** The loops over the bytes and bits of one digest. */
  method Tally(tmpHash: array<int>, digest: Digest)
    requires tmpHash.Length == HASH_BITS
    modifies tmpHash
    ensures forall k :: 0 <= k < HASH_BITS ==> tmpHash[k] == old(tmpHash[k]) + (if BitAt(digest, k) then 1 else -1)
  {
    hide Bit;
    for i := 0 to MD5_LENGTH
      invariant forall k :: 0 <= k < 8 * i ==> tmpHash[k] == old(tmpHash[k]) + (if BitAt(digest, k) then 1 else -1)
      invariant forall k :: 8 * i <= k < HASH_BITS ==> tmpHash[k] == old(tmpHash[k])
    {
      for bit := 0 to 8
        invariant forall k :: 0 <= k < 8 * i + bit ==>
                    tmpHash[k] == old(tmpHash[k]) + (if BitAt(digest, k) then 1 else -1)
        invariant forall k :: 8 * i + bit <= k < HASH_BITS ==> tmpHash[k] == old(tmpHash[k])
      {
        BitIndex(i, bit);
        var valBit := if Bit(digest[i], bit) then 1 else 0;
        tmpHash[i * 8 + bit] := tmpHash[i * 8 + bit] + (if valBit > 0 then 1 else -1);
      }
    }
  }

  lemma BitIndex(i: nat, bit: nat)
    requires bit < 8
    ensures (i * 8 + bit) / 8 == i && (i * 8 + bit) % 8 == bit
  {
  }

  /** Empties the table from its first slot on and counts the votes of what it returns. */
  method CountVotes(table: ShingleTable.Table) returns (tmpHash: array<int>)
    requires table.Valid() && Distinct(table.table[..])
    modifies table, table.table
    ensures fresh(tmpHash) && tmpHash.Length == HASH_BITS
    ensures forall k :: 0 <= k < HASH_BITS ==> tmpHash[k] == Vote(Listing(old(table.table[..])), k)
  {
    hide Listing, Count, IsFirst, BitAt, Distinct;
    ghost var t := table.table[..];
    ghost var list := Listing(t);
    tmpHash := new int[HASH_BITS];
    for i := 0 to HASH_BITS
      invariant forall k :: 0 <= k < i ==> tmpHash[k] == 0
      modifies tmpHash
    {
      tmpHash[i] := 0;
    }
    ghost var n := 0;
    assert table.table[..] == t;
    ListingIsContents(t);
    while !table.IsEmpty()
      invariant table.Valid() && table.table == old(table.table)
      invariant n + table.eltCount == |list| && Listing(table.table[..]) == list[n..]
      invariant forall k :: 0 <= k < HASH_BITS ==> tmpHash[k] == Vote(list[..n], k)
      decreases table.eltCount
    {
      var sh := table.RemoveFirst();
      ListingIsContents(table.table[..]);
      HeadAndTail(list, n, sh.value, Listing(table.table[..]));
      assert list[..n + 1][..n] == list[..n];
      Tally(tmpHash, sh.value.digest);
      n := n + 1;
    }
    assert n == |list| && list[..n] == list;
  }

  // ---------- Packing the bits ----------

  /** The byte that the do-while loop has built from bit 7 down to bit `bit`. */
  function Pack(bits: seq<bool>, bit: nat): byte
    requires |bits| == 8 && bit <= 8
    decreases 8 - bit
  {
    if bit == 8 then 0 else (Pack(bits, bit + 1) << 1) + (if bits[bit] then 1 else 0)
  }

  lemma PackedBits(bits: seq<bool>)
    requires |bits| == 8
    ensures forall b :: 0 <= b < 8 ==> Bit(Pack(bits, 0), b) == bits[b]
  {
    assert Pack(bits, 6) == (Pack(bits, 7) << 1) + (if bits[6] then 1 else 0);
    assert Pack(bits, 4) == (Pack(bits, 5) << 1) + (if bits[4] then 1 else 0);
    assert Pack(bits, 2) == (Pack(bits, 3) << 1) + (if bits[2] then 1 else 0);
    var p := Pack(bits, 0);
    assert Bit(p, 0) == bits[0];
    assert Bit(p, 1) == bits[1];
    assert Bit(p, 2) == bits[2];
    assert Bit(p, 3) == bits[3];
    assert Bit(p, 4) == bits[4];
    assert Bit(p, 5) == bits[5];
    assert Bit(p, 6) == bits[6];
    assert Bit(p, 7) == bits[7];
  }

  /** The final values of the eight bits of a byte. */
  function FinalBits(votes: seq<int>, octet: nat): (bits: seq<bool>)
    requires |votes| == HASH_BITS && octet < MD5_LENGTH
    ensures |bits| == 8 && forall b :: 0 <= b < 8 ==> bits[b] == (votes[8 * octet + b] > 0)
  {
    seq(8, b requires 0 <= b < 8 => votes[8 * octet + b] > 0)
  }

  method PackHash(tmpHash: array<int>) returns (finalHash: seq<byte>)
    requires tmpHash.Length == HASH_BITS
    ensures |finalHash| == MD5_LENGTH
    ensures forall k :: 0 <= k < HASH_BITS ==> (BitAt(finalHash, k) <==> tmpHash[k] > 0)
  {
    hide Bit, Pack, FinalBits;
    var hash := new byte[MD5_LENGTH];
    ghost var votes := tmpHash[..];
    for octet := 0 to MD5_LENGTH
      invariant tmpHash[..] == votes
      invariant forall o :: 0 <= o < octet ==> hash[o] == Pack(FinalBits(votes, o), 0)
    {
      hash[octet] := PackOctet(tmpHash, octet);
    }
    finalHash := hash[..];
    forall k | 0 <= k < HASH_BITS ensures BitAt(finalHash, k) <==> votes[k] > 0 {
      PackedBit(finalHash, votes, k);
    }
  }

  lemma PackedBit(hash: seq<byte>, votes: seq<int>, k: nat)
    requires |hash| == MD5_LENGTH && |votes| == HASH_BITS && k < HASH_BITS
    requires hash[k / 8] == Pack(FinalBits(votes, k / 8), 0)
    ensures BitAt(hash, k) <==> votes[k] > 0
  {
    hide Bit, Pack;
    PackedBits(FinalBits(votes, k / 8));
    assert 8 * (k / 8) + k % 8 == k;
  }

  /** The do-while loop over the bits of one byte. */
  method PackOctet(tmpHash: array<int>, octet: nat) returns (tmpOctet: byte)
    requires tmpHash.Length == HASH_BITS && octet < MD5_LENGTH
    ensures tmpOctet == Pack(FinalBits(tmpHash[..], octet), 0)
  {
    tmpOctet := 0;
    var bit := 8;
    while bit != 0
      invariant 0 <= bit <= 8 && tmpOctet == Pack(FinalBits(tmpHash[..], octet), bit)
    {
      bit := bit - 1;
      var finalVal: byte := if tmpHash[octet * 8 + bit] > 0 then 1 else 0;
      tmpOctet := tmpOctet << 1;
      tmpOctet := tmpOctet + finalVal;
    }
  }

  // ---------- The hash ----------

  /** `hash` is what the similarity hash of the data has to be. */
  predicate IsSimHash(hash: seq<byte>, md5: DigestFunction, data: ElfData) {
    && |hash| == MD5_LENGTH
    && forall k :: 0 <= k < HASH_BITS ==>
         (BitAt(hash, k) <==> Majority(DataDigests(md5, data, SECTION_END), k))
  }

  /** Whatever the digest function and the initial capacity, each bit of the hash is the majority
      of that bit over the set of distinct window digests. */
  method ComputeHash(data: ElfData, md5: DigestFunction, capacity: nat) returns (hash: seq<byte>)
    requires 0 < capacity <= ULONG_MAX && 2 * |Stream(data)| <= ULONG_MAX
    ensures IsSimHash(hash, md5, data)
  {
    hide BitAt, Build, Digests, Shingles, Listing, Ones, DataDigests, Vote;
    var table := FillTable(data, md5, capacity);
    ghost var t := table.table[..];
    BuildIsDistinct(t);
    var tmpHash := CountVotes(table);
    hash := PackHash(tmpHash);
    forall k | 0 <= k < HASH_BITS ensures Vote(Listing(t), k) > 0 <==> Majority(Digests(t), k) {
      VoteIsMajority(t, k);
    }
  }

  lemma VoteIsMajority(t: seq<Slot>, k: nat)
    requires Distinct(t) && k < HASH_BITS
    ensures Vote(Listing(t), k) > 0 <==> Majority(Digests(t), k)
  {
    hide Listing, Vote, BitAt;
    ListingIsContents(t);
    VoteCountsSet(Listing(t), k);
    ListedDigests(t);
  }

  lemma ListedDigests(t: seq<Slot>)
    ensures DigestSet(Listing(t)) == Digests(t)
  {
    hide Listing, DigestSet;
    ListingIsContents(t);
    forall d: Digest ensures d in DigestSet(Listing(t)) <==> d in Digests(t) {
      InDigestSet(Listing(t), d);
      if d in DigestSet(Listing(t)) {
        var i :| 0 <= i < |Listing(t)| && Listing(t)[i].digest == d;
        assert Listing(t)[i] in Shingles(t);
      }
      if d in Digests(t) {
        var j :| 0 <= j < |t| && t[j].Full? && t[j].shingle.digest == d;
        assert t[j].shingle in Shingles(t);
        assert t[j].shingle in Listing(t);
      }
    }
  }

  // ---------- What the hash depends on ----------

  lemma BitsDetermineByte(x: byte, y: byte)
    requires forall b :: 0 <= b < 8 ==> Bit(x, b) == Bit(y, b)
    ensures x == y
  {
    assert Bit(x, 0) == Bit(y, 0) && Bit(x, 1) == Bit(y, 1) && Bit(x, 2) == Bit(y, 2) && Bit(x, 3) == Bit(y, 3);
    assert Bit(x, 4) == Bit(y, 4) && Bit(x, 5) == Bit(y, 5) && Bit(x, 6) == Bit(y, 6) && Bit(x, 7) == Bit(y, 7);
  }

  /** The set of digests determines the hash: not the order of the windows, their number, the
      capacity of the table or how often it was expanded. */
  lemma DigestSetDeterminesHash(hash1: seq<byte>, hash2: seq<byte>, md5: DigestFunction, data1: ElfData, data2: ElfData)
    requires IsSimHash(hash1, md5, data1) && IsSimHash(hash2, md5, data2)
    requires DataDigests(md5, data1, SECTION_END) == DataDigests(md5, data2, SECTION_END)
    ensures hash1 == hash2
  {
    hide Majority, DataDigests, Bit;
    forall i | 0 <= i < MD5_LENGTH ensures hash1[i] == hash2[i] {
      forall b | 0 <= b < 8 ensures Bit(hash1[i], b) == Bit(hash2[i], b) {
        BitIndex(i, b);
        assert BitAt(hash1, i * 8 + b) == BitAt(hash2, i * 8 + b);
      }
      BitsDetermineByte(hash1[i], hash2[i]);
    }
  }

  /** Where there is a single digest, the hash is that digest. */
  lemma OneDigestIsTheHash(hash: seq<byte>, md5: DigestFunction, data: ElfData, d: Digest)
    requires IsSimHash(hash, md5, data) && DataDigests(md5, data, SECTION_END) == {d}
    ensures hash == d
  {
    hide Bit, DataDigests;
    forall i | 0 <= i < MD5_LENGTH ensures hash[i] == d[i] {
      forall b | 0 <= b < 8 ensures Bit(hash[i], b) == Bit(d[i], b) {
        BitIndex(i, b);
        var k := i * 8 + b;
        assert Ones({d}, k) == if BitAt(d, k) then {d} else {};
        assert BitAt(hash, k) <==> BitAt(d, k);
      }
      BitsDetermineByte(hash[i], d[i]);
    }
  }

  /** Bit `b` of a byte is its binary digit of that weight. */
  lemma {:induction false} BitIsBinaryDigit(x: byte, b: nat)
    requires b < 8
    ensures Bit(x, b) <==> x as nat / Pow2(b) % 2 == 1
    decreases b
  {
    if b == 0 {
      LowBit(x);
      assert Pow2(0) == 1;
    } else {
      var h := x >> 1;
      HalvedByte(x, h, b);
      BitIsBinaryDigit(h, b - 1);
      assert Pow2(b) == 2 * Pow2(b - 1);
      hide Bit, Pow2;
      DivideInTwoSteps(x as nat, h as nat, Pow2(b - 1));
    }
  }

  lemma LowBit(x: byte)
    ensures Bit(x, 0) <==> x as nat % 2 == 1
  {
  }

  lemma HalvedByte(x: byte, h: byte, b: nat)
    requires h == x >> 1 && 0 < b < 8
    ensures h as nat == x as nat / 2 && (Bit(x, b) <==> Bit(h, b - 1))
  {
  }

  lemma DivideInTwoSteps(x: nat, h: nat, d: nat)
    requires d > 0 && h == x / 2
    ensures x / (2 * d) == h / d
  {
    var q, r := h / d, h % d;
    assert x == 2 * d * q + (2 * r + x % 2);
    RemainderIs(x, 2 * d, q, 2 * r + x % 2);
  }

  /** A digest is in the set exactly if it is the digest of one of the windows. */
  lemma {:induction false} InSectionDigests(md5: DigestFunction, bytes: seq<byte>, size: nat, n: nat, d: Digest)
    requires n + size <= |bytes| + 1
    ensures d in SectionDigests(md5, bytes, size, n) <==> exists j :: 0 <= j < n && md5(Window(bytes, size, j)) == d
  {
    if n == 0 {
    } else {
      InSectionDigests(md5, bytes, size, n - 1, d);
    }
  }

  /** All windows of a section have been hashed, the last one included, if and only if that one has
      the digest of an earlier one. */
  lemma LastWindowIsMissedIff(md5: DigestFunction, bytes: seq<byte>, size: nat)
    requires size <= |bytes|
    ensures
      var n := |bytes| - size;
      SectionDigests(md5, bytes, size, n + 1) == SectionDigests(md5, bytes, size, n) <==>
      exists j :: 0 <= j < n && md5(Window(bytes, size, j)) == md5(Window(bytes, size, n))
  {
    var n := |bytes| - size;
    var last := md5(Window(bytes, size, n));
    InSectionDigests(md5, bytes, size, n, last);
    assert SectionDigests(md5, bytes, size, n + 1) == SectionDigests(md5, bytes, size, n) + {last};
  }

  /** The windows of a section that are hashed. */
  function HashedWindows(bytes: seq<byte>, size: nat): set<seq<byte>> {
    set j | 0 <= j < |bytes| - size :: Window(bytes, size, j)
  }

  function DataWindows(data: ElfData, i: nat): set<seq<byte>>
    requires i <= SECTION_END
  {
    if i == 0 then {}
    else DataWindows(data, i - 1) + HashedWindows(data[i - 1], WindowSize(i - 1, |data[i - 1]|))
  }

  lemma {:induction false} InDataDigests(md5: DigestFunction, data: ElfData, i: nat, d: Digest)
    requires i <= SECTION_END
    ensures d in DataDigests(md5, data, i) <==> exists w :: w in DataWindows(data, i) && md5(w) == d
  {
    if i == 0 {
    } else {
      var bytes, size := data[i - 1], WindowSize(i - 1, |data[i - 1]|);
      InDataDigests(md5, data, i - 1, d);
      InSectionDigests(md5, bytes, size, |bytes| - size, d);
      DigestOfHashedWindow(md5, bytes, size, d);
    }
  }

  /** The digest of the last window of a section is in the set, although that window is left out, if
      and only if some hashed window of some section has the same one. */
  lemma LastDigestIsCoveredIff(md5: DigestFunction, data: ElfData, i: nat)
    requires i < SECTION_END
    ensures
      var size := WindowSize(i, |data[i]|);
      var last := md5(Window(data[i], size, |data[i]| - size));
      last in DataDigests(md5, data, SECTION_END) <==>
      exists k, j :: 0 <= k < SECTION_END && 0 <= j < |data[k]| - WindowSize(k, |data[k]|) &&
                     md5(Window(data[k], WindowSize(k, |data[k]|), j)) == last
  {
    hide DataDigests, DataWindows, WindowSize;
    var size := WindowSize(i, |data[i]|);
    var last := md5(Window(data[i], size, |data[i]| - size));
    InDataDigests(md5, data, SECTION_END, last);
    if w :| w in DataWindows(data, SECTION_END) && md5(w) == last {
      InDataWindows(data, SECTION_END, w);
    }
    if k, j :| 0 <= k < SECTION_END && 0 <= j < |data[k]| - WindowSize(k, |data[k]|) &&
               md5(Window(data[k], WindowSize(k, |data[k]|), j)) == last {
      InDataWindows(data, SECTION_END, Window(data[k], WindowSize(k, |data[k]|), j));
    }
  }

  /** Where no two different windows collide, equal digest sets mean equal windows. */
  lemma WindowsDecideDigestsIff(md5: DigestFunction, data1: ElfData, data2: ElfData)
    requires
      var windows := DataWindows(data1, SECTION_END) + DataWindows(data2, SECTION_END);
      forall v, w :: v in windows && w in windows && md5(v) == md5(w) ==> v == w
    ensures DataDigests(md5, data1, SECTION_END) == DataDigests(md5, data2, SECTION_END) <==>
            DataWindows(data1, SECTION_END) == DataWindows(data2, SECTION_END)
  {
    hide DataDigests, DataWindows;
    forall d: Digest
      ensures d in DataDigests(md5, data1, SECTION_END) <==>
              exists w :: w in DataWindows(data1, SECTION_END) && md5(w) == d
      ensures d in DataDigests(md5, data2, SECTION_END) <==>
              exists w :: w in DataWindows(data2, SECTION_END) && md5(w) == d
    {
      InDataDigests(md5, data1, SECTION_END, d);
      InDataDigests(md5, data2, SECTION_END, d);
    }
    if DataDigests(md5, data1, SECTION_END) == DataDigests(md5, data2, SECTION_END) {
      forall w: seq<byte>
        ensures w in DataWindows(data1, SECTION_END) <==> w in DataWindows(data2, SECTION_END)
      {
        assert w in DataWindows(data1, SECTION_END) ==> md5(w) in DataDigests(md5, data2, SECTION_END);
        assert w in DataWindows(data2, SECTION_END) ==> md5(w) in DataDigests(md5, data1, SECTION_END);
      }
    }
  }

  lemma DigestOfHashedWindow(md5: DigestFunction, bytes: seq<byte>, size: nat, d: Digest)
    requires size <= |bytes|
    ensures (exists w :: w in HashedWindows(bytes, size) && md5(w) == d) <==>
            (exists j :: 0 <= j < |bytes| - size && md5(Window(bytes, size, j)) == d)
  {
    hide Window;
    if j :| 0 <= j < |bytes| - size && md5(Window(bytes, size, j)) == d {
      assert Window(bytes, size, j) in HashedWindows(bytes, size);
    }
  }

  /** There is no window at all exactly if no section is longer than its windows are meant to be. */
  lemma {:induction false} NoWindowIff(md5: DigestFunction, data: ElfData, i: nat)
    requires i <= SECTION_END
    ensures DataDigests(md5, data, i) == {} <==> forall k :: 0 <= k < i ==> |data[k]| <= SHINGLE_SIZE[k]
  {
    if i == 0 {
    } else {
      NoWindowIff(md5, data, i - 1);
      var size := WindowSize(i - 1, |data[i - 1]|);
      assert SectionDigests(md5, data[i - 1], size, |data[i - 1]| - size) == {} <==> |data[i - 1]| == size;
    }
  }

  /** Without a window the hash is zero, whatever the bytes are. */
  lemma WindowlessHashIsZero(hash: seq<byte>, md5: DigestFunction, data: ElfData)
    requires IsSimHash(hash, md5, data)
    requires forall k :: 0 <= k < SECTION_END ==> |data[k]| <= SHINGLE_SIZE[k]
    ensures hash == Zeros(MD5_LENGTH)
  {
    NoWindowIff(md5, data, SECTION_END);
    forall i | 0 <= i < MD5_LENGTH ensures hash[i] == 0 {
      forall b | 0 <= b < 8 ensures Bit(hash[i], b) == Bit(0, b) {
        BitIndex(i, b);
        assert Ones({}, i * 8 + b) == {};
        assert !BitAt(hash, i * 8 + b);
      }
      BitsDetermineByte(hash[i], 0);
    }
  }

  const PLT := 1
  const TEXT := 4
  const RODATA := 5

  /** The byte values that occur before the last byte. */
  function ByteValues(bytes: seq<byte>): set<byte> {
    set j | 0 <= j < |bytes| - 1 :: bytes[j]
  }

  /** The hashed windows are the parts of the right length with at least one byte behind them. */
  lemma HashedWindowsAreParts(bytes: seq<byte>, front: seq<byte>, w: seq<byte>, back: seq<byte>)
    requires bytes == front + w + back && back != []
    ensures w in HashedWindows(bytes, |w|)
  {
    assert w == bytes[|front|..|front| + |w|];
    assert w == Window(bytes, |w|, |front|);
  }

  lemma HashedWindowIsPart(bytes: seq<byte>, size: nat, w: seq<byte>) returns (front: seq<byte>, back: seq<byte>)
    requires w in HashedWindows(bytes, size)
    ensures |w| == size && bytes == front + w + back && back != []
  {
    var j :| 0 <= j < |bytes| - size && Window(bytes, size, j) == w;
    front, back := bytes[..j], bytes[j + size..];
  }

  lemma OneByteWindows(bytes: seq<byte>, w: seq<byte>)
    ensures w in HashedWindows(bytes, 1) <==> |w| == 1 && w[0] in ByteValues(bytes)
  {
    forall j | 0 <= j < |bytes| - 1 ensures Window(bytes, 1, j) == [bytes[j]] {
    }
    if |w| == 1 && w[0] in ByteValues(bytes) {
      var j :| 0 <= j < |bytes| - 1 && bytes[j] == w[0];
      assert w == Window(bytes, 1, j);
    }
  }

  lemma {:induction false} InDataWindows(data: ElfData, i: nat, w: seq<byte>)
    requires i <= SECTION_END
    ensures w in DataWindows(data, i) <==>
            exists k :: 0 <= k < i && w in HashedWindows(data[k], WindowSize(k, |data[k]|))
  {
    if i == 0 {
    } else {
      hide HashedWindows, WindowSize;
      InDataWindows(data, i - 1, w);
    }
  }

  lemma WindowsOfSection(bytes: seq<byte>, k: nat)
    requires k < SECTION_END && |bytes| <= ULONG_MAX
    ensures HashedWindows(bytes, WindowSize(k, |bytes|)) ==
            if k == PLT || k == TEXT then HashedWindows(bytes, 1)
            else if k == RODATA then HashedWindows(bytes, 20)
            else {}
  {
  }

  /** Only three sections have windows, and only one of them has windows of more than one byte. */
  lemma InWindowsOfData(data: ElfData, w: seq<byte>)
    requires forall k :: 0 <= k < SECTION_END ==> |data[k]| <= ULONG_MAX
    ensures w in DataWindows(data, SECTION_END) <==>
            (|w| == 1 && w[0] in CodeValues(data)) || w in HashedWindows(data[RODATA], 20)
  {
    hide HashedWindows, ByteValues, WindowSize;
    InDataWindows(data, SECTION_END, w);
    OneByteWindows(data[PLT], w);
    OneByteWindows(data[TEXT], w);
    forall k | 0 <= k < SECTION_END
      ensures w in HashedWindows(data[k], WindowSize(k, |data[k]|)) <==>
              ((k == PLT || k == TEXT) && w in HashedWindows(data[k], 1)) ||
              (k == RODATA && w in HashedWindows(data[k], 20))
    {
      WindowsOfSection(data[k], k);
    }
    var k :=
      if w in HashedWindows(data[PLT], 1) then PLT else if w in HashedWindows(data[TEXT], 1) then TEXT else RODATA;
    assert w in HashedWindows(data[k], WindowSize(k, |data[k]|)) || w !in DataWindows(data, SECTION_END);
  }

  function CodeValues(data: ElfData): set<byte> {
    ByteValues(data[PLT]) + ByteValues(data[TEXT])
  }

  /** The hash depends on three of the seven sections: on the byte values that occur in two of them
      and on the windows of the third. The last byte of a section, the order and number of equal code
      bytes, and the section that they are in play no part. */
  lemma OnlyThreeSectionsMatter(hash1: seq<byte>, hash2: seq<byte>, md5: DigestFunction, data1: ElfData, data2: ElfData)
    requires IsSimHash(hash1, md5, data1) && IsSimHash(hash2, md5, data2)
    requires forall k :: 0 <= k < SECTION_END ==> |data1[k]| <= ULONG_MAX && |data2[k]| <= ULONG_MAX
    requires CodeValues(data1) == CodeValues(data2)
    requires HashedWindows(data1[RODATA], 20) == HashedWindows(data2[RODATA], 20)
    ensures hash1 == hash2
  {
    hide CodeValues, HashedWindows, IsSimHash, DataDigests, DataWindows;
    forall w: seq<byte>
      ensures w in DataWindows(data1, SECTION_END) <==> w in DataWindows(data2, SECTION_END)
    {
      InWindowsOfData(data1, w);
      InWindowsOfData(data2, w);
    }
    forall d: Digest
      ensures d in DataDigests(md5, data1, SECTION_END) <==> d in DataDigests(md5, data2, SECTION_END)
    {
      InDataDigests(md5, data1, SECTION_END, d);
      InDataDigests(md5, data2, SECTION_END, d);
    }
    DigestSetDeterminesHash(hash1, hash2, md5, data1, data2);
  }

  predicate AgreeButForLastByte(bytes: seq<byte>, other: seq<byte>) {
    |bytes| == |other| && (bytes == [] || bytes[..|bytes| - 1] == other[..|bytes| - 1])
  }

  lemma LastByteIsIgnored(bytes: seq<byte>, other: seq<byte>, size: nat)
    requires AgreeButForLastByte(bytes, other)
    ensures HashedWindows(bytes, size) == HashedWindows(other, size)
    ensures ByteValues(bytes) == ByteValues(other)
  {
    forall j | 0 <= j < |bytes| - size
      ensures Window(bytes, size, j) == Window(other, size, j)
    {
      SameWindow(bytes, other, size, j);
    }
    assert forall j :: 0 <= j < |bytes| - 1 ==> bytes[j] == bytes[..|bytes| - 1][j] == other[j];
  }

  lemma SameWindow(bytes: seq<byte>, other: seq<byte>, size: nat, j: nat)
    requires AgreeButForLastByte(bytes, other) && j + size < |bytes|
    ensures Window(bytes, size, j) == Window(other, size, j)
  {
    var front := bytes[..|bytes| - 1];
    forall k | j <= k < j + size ensures bytes[k] == other[k] {
      assert bytes[k] == front[k] == other[k];
    }
  }
}
