/** The search of src/ctph.c (`ctph_hash`) for a block size whose signature is long enough. */
module BlockSearch {
  import opened Words
  import opened Elf
  import BlockStart
  import Decimal
  import Engine
  import Fnv
  import RollingHash

  const MIN_LENGTH := 32

  /** `Undefined` stands for the two ways in which C leaves the result undefined: a division by
      the coefficient after it wrapped around to zero, and a use of the freed signature. */
  datatype Outcome = Hashed(text: string) | NoHash | Undefined

  /** `snprintf` keeps one character less than the size of its buffer. */
  function Truncated(text: string, size: nat): string {
    if |text| < size then text else if size == 0 then [] else text[..size - 1]
  }

  function Text(blockSize: nat, fine: string, coarse: string): string {
    Decimal.Print(blockSize) + ":" + fine + ":" + coarse
  }

  /** What is allocated for the text, in 16 bits, from the two lengths that are one short. */
  function BufferSize(fine: string, coarse: string): nat {
    (Engine.SignLength(fine) + Engine.SignLength(coarse) + 20 + 1 + 2) % UINT16_MOD
  }

  // ---------- Specification ----------

  /** The block size of round `k`: the first one halved `k` times. */
  function Block(firstBlock: nat, k: nat): nat {
    if k == 0 then firstBlock else Block(firstBlock, k - 1) / 2
  }

  /** The round with this block size does not end the search. */
  predicate Continues(s: seq<byte>, block: nat) {
    block > 0 && Engine.SignLength(Engine.Signature(s, block)) < MIN_LENGTH
  }

  /** The round from `k` on that ends the search; the 16th cannot run. */
  function Chosen(s: seq<byte>, firstBlock: nat, k: nat): (c: nat)
    requires k <= 16
    ensures k <= c <= 16
    decreases 16 - k
  {
    if k < 16 && Continues(s, Block(firstBlock, k)) then Chosen(s, firstBlock, k + 1) else k
  }

  lemma {:induction false} ChosenIsFirst(s: seq<byte>, firstBlock: nat, k: nat, j: nat)
    requires k <= j <= 16
    ensures j < Chosen(s, firstBlock, k) ==> Continues(s, Block(firstBlock, j))
    ensures j == Chosen(s, firstBlock, k) < 16 ==> !Continues(s, Block(firstBlock, j))
    decreases 16 - k
  {
    hide Continues, Block;
    if k == j {
    } else {
      ChosenIsFirst(s, firstBlock, k + 1, j);
    }
  }

  /** The block size of the second signature. */
  function CoarseBlock(firstBlock: nat, k: nat): nat {
    if k == 0 then firstBlock * 2 % UINT64_MOD else Block(firstBlock, k - 1)
  }

  function Printed(s: seq<byte>, block: nat, coarseBlock: nat): Outcome
    requires block > 0
  {
    var fine := Engine.Signature(s, block);
    if fine == [] then Undefined
    else if coarseBlock == 0 then NoHash
    else
      var coarse := Engine.Signature(s, coarseBlock);
      Hashed(Truncated(Text(block, fine, coarse), BufferSize(fine, coarse)))
  }

  function Expected(s: seq<byte>, firstBlock: nat): Outcome {
    var k := Chosen(s, firstBlock, 0);
    if k == 16 then Undefined
    else if Block(firstBlock, k) == 0 then NoHash
    else Printed(s, Block(firstBlock, k), CoarseBlock(firstBlock, k))
  }

  // ---------- The method ----------

  method CtphHash(data: ElfData, estimate: bv64) returns (r: Outcome)
    ensures r == Expected(Stream(data), BlockStart.FirstBlockSize(estimate))
  {
    hide BlockStart.FirstBlockSize, Engine.Signature, Printed, Block, Text, Truncated, BufferSize;
    ghost var s := Stream(data);
    var firstBlock := BlockStart.FirstBlockSize(estimate);
    var hash, hashPrec: Option<string> := None, None;
    var hashLength, hashLengthPrec: nat := 0, 0;
    var coef: nat := 1;
    var trueB: nat := 0;
    ghost var k := 0;
    while true
      invariant k <= 16 && coef == Pow2(k) % UINT16_MOD
      invariant Chosen(s, firstBlock, 0) == Chosen(s, firstBlock, k)
      invariant k == 0 ==> hashPrec == None
      invariant k > 0 ==> Block(firstBlock, k - 1) > 0
      invariant k > 0 ==> hashPrec == Some(Engine.Signature(s, Block(firstBlock, k - 1)))
      invariant k > 0 ==> hashLengthPrec == Engine.SignLength(hashPrec.value)
      decreases 16 - k
    {
      PowersTo16(k);
      if coef == 0 {
        return Undefined;
      }
      BlockIsQuotient(firstBlock, k);
      trueB := firstBlock / coef;
      hash, hashLength := Engine.CtphHashEngine(data, trueB);
      if hash == None {
        return NoHash;
      }
      if hashLength < MIN_LENGTH {
        hashLengthPrec := hashLength;
        hashPrec := hash;
        coef := coef * 2 % UINT16_MOD;
      }
      if hashLength >= Engine.SIGN_LENGTH {
        coef := coef / 2; // the signature is freed as well
      }
      if hashLength >= MIN_LENGTH {
        break;
      }
      k := k + 1;
    }
    r := Finish(data, trueB, coef, hash.value, hashLength, hashPrec, hashLengthPrec,
                CoarseBlock(firstBlock, k));
  }

  /** From the end of the loop on: the second signature, and printing. */
  method Finish(data: ElfData, trueB: nat, coef: nat, hash: string, hashLength: nat,
                prec: Option<string>, precLength: nat, ghost coarseBlock: nat)
    returns (r: Outcome)
    requires trueB > 0 && hash == Engine.Signature(Stream(data), trueB)
    requires hashLength == Engine.SignLength(hash)
    requires prec == None ==> coarseBlock == trueB * 2 % UINT64_MOD
    requires prec != None ==> coarseBlock > 0 && prec.value == Engine.Signature(Stream(data), coarseBlock)
    requires prec != None ==> precLength == Engine.SignLength(prec.value)
    requires hash == [] || coef >= 1
    ensures r == Printed(Stream(data), trueB, coarseBlock)
  {
    hide Engine.Signature, Text, Truncated;
    var hashPrec, hashLengthPrec := prec, precLength;
    if hashPrec == None {
      if coef < 1 {
        hashPrec, hashLengthPrec := Engine.CtphHashEngine(data, trueB / 2);
      } else {
        hashPrec, hashLengthPrec := Engine.CtphHashEngine(data, trueB * 2 % UINT64_MOD);
      }
    }
    if hashLength >= Engine.SIGN_LENGTH {
      return Undefined; // the freed signature is freed again or printed
    }
    if hashPrec == None {
      return NoHash;
    }
    var size := (hashLength + hashLengthPrec + 20 + 1 + 2) % UINT16_MOD;
    r := Hashed(Truncated(Text(trueB, hash, hashPrec.value), size));
  }

  lemma PowersTo16(k: nat)
    requires k <= 16
    ensures Pow2(k) % UINT16_MOD == if k == 16 then 0 else Pow2(k)
    ensures k < 16 ==> Pow2(k) < UINT16_MOD && Pow2(k + 1) == 2 * Pow2(k)
  {
    BlockStart.EightDoublings(0);
    BlockStart.EightDoublings(8);
    if k < 16 { Pow2Monotone(k, 15); }
  }

  lemma {:induction false} BlockIsQuotient(firstBlock: nat, k: nat)
    ensures firstBlock / Pow2(k) == Block(firstBlock, k)
  {
    if k == 0 {
    } else {
      BlockIsQuotient(firstBlock, k - 1);
      DivideTwice(firstBlock, Pow2(k - 1));
    }
  }

  lemma DivideTwice(x: nat, d: nat)
    requires d > 0
    ensures x / d / 2 == x / (2 * d)
  {
    var q, r := x / d, x % d;
    HalfQuotient(x, d, q, r);
    RemainderIs(x, 2 * d, q / 2, (q % 2) * d + r);
  }

  lemma HalfQuotient(x: nat, d: nat, q: nat, r: nat)
    requires x == d * q + r && r < d
    ensures x == (2 * d) * (q / 2) + ((q % 2) * d + r) && (q % 2) * d + r < 2 * d
  {
    assert q == 2 * (q / 2) + q % 2;
    assert d * q == d * (2 * (q / 2)) + d * (q % 2);
  }

  // ---------- What the search finds, for a power of two ----------

  lemma {:induction false} BlockOfPower(m: nat, k: nat)
    ensures Block(Pow2(m), k) == if k <= m then Pow2(m - k) else 0
  {
    if k == 0 {
    } else {
      BlockOfPower(m, k - 1);
    }
  }

  function SigLen(s: seq<byte>, j: nat): (n: nat)
    ensures n <= Engine.MAX_TRIGGERS
  {
    |Engine.Signature(s, Pow2(j))|
  }

  /** Halving the block size never shortens the signature. */
  lemma {:induction false} SigLenAntitone(s: seq<byte>, i: nat, j: nat)
    requires i <= j
    ensures SigLen(s, j) <= SigLen(s, i)
    decreases j - i
  {
    hide Engine.Signature;
    if i == j {
    } else {
      SigLenAntitone(s, i, j - 1);
      Engine.FinerSignatureIsNotShorter(s, Pow2(j - 1), 2);
    }
  }

  /** Below a block size with some signature, the search goes on exactly while it is too short. */
  lemma ContinuesWhileShort(s: seq<byte>, m: nat, j: nat)
    requires j <= m && SigLen(s, m) > 0
    ensures Continues(s, Pow2(j)) <==> SigLen(s, j) <= MIN_LENGTH
  {
    hide Engine.Signature, Engine.SignLength;
    SigLenAntitone(s, j, m);
    Engine.SignLengthCases(Engine.Signature(s, Pow2(j)));
  }

  /** The last round that the search may reach before the block size or the coefficient is zero. */
  function LastRound(m: nat): nat {
    if m < 15 then m else 15
  }

  lemma ChosenRound(s: seq<byte>, m: nat) returns (k: nat)
    requires SigLen(s, m) > 0
    ensures k == Chosen(s, Pow2(m), 0)
    ensures SigLen(s, m - LastRound(m)) <= MIN_LENGTH ==> k == LastRound(m) + 1
    ensures SigLen(s, m - LastRound(m)) > MIN_LENGTH ==> k <= LastRound(m) && SigLen(s, m - k) > MIN_LENGTH
    ensures forall j: nat :: m - k < j <= m ==> SigLen(s, j) <= MIN_LENGTH
  {
    hide SigLen, Continues, Chosen;
    k := Chosen(s, Pow2(m), 0);
    var last := LastRound(m);
    forall j: nat | m - k < j <= m ensures SigLen(s, j) <= MIN_LENGTH {
      BlockOfPower(m, m - j);
      ChosenIsFirst(s, Pow2(m), 0, m - j);
      ContinuesWhileShort(s, m, j);
    }
    BlockOfPower(m, k);
    ChosenIsFirst(s, Pow2(m), 0, k);
    if k <= last {
      ContinuesWhileShort(s, m, m - k);
      SigLenAntitone(s, m - last, m - k);
    } else {
      assert SigLen(s, m - last) <= MIN_LENGTH;
      if last < 15 {
        BlockOfPower(m, last + 1);
        ChosenIsFirst(s, Pow2(m), 0, last + 1);
        ZeroStops(s);
      }
    }
  }

  lemma ZeroStops(s: seq<byte>)
    ensures !Continues(s, 0)
  {
  }

  /** How many characters the buffer is too small by: the digits of the block size beyond 18. */
  function Missing(block: nat): nat {
    if |Decimal.Print(block)| <= 18 then 0 else |Decimal.Print(block)| - 18
  }

  /** What is left of the text: all but its last characters, one for each digit beyond 18. */
  lemma TextLosesMissing(block: nat, fine: string, coarse: string)
    requires 0 < |fine| <= Engine.MAX_TRIGGERS && |coarse| <= Engine.MAX_TRIGGERS
    ensures Missing(block) <= |Text(block, fine, coarse)|
    ensures Truncated(Text(block, fine, coarse), BufferSize(fine, coarse)) ==
            Text(block, fine, coarse)[..|Text(block, fine, coarse)| - Missing(block)]
  {
    BufferSizeCases(fine, coarse);
    hide BufferSize, Decimal.Print;
    assert |Text(block, fine, coarse)| == |Decimal.Print(block)| + |fine| + |coarse| + 2;
  }

  /** The text is complete exactly if the block size prints with at most 18 digits. */
  lemma TextIsCompleteIff(block: nat, fine: string, coarse: string)
    requires 0 < |fine| <= Engine.MAX_TRIGGERS && |coarse| <= Engine.MAX_TRIGGERS
    ensures Truncated(Text(block, fine, coarse), BufferSize(fine, coarse)) == Text(block, fine, coarse)
            <==> block < Decimal.Pow10(18)
  {
    TextLosesMissing(block, fine, coarse);
    Decimal.PrintLength(block, 18);
    hide BufferSize, Decimal.Print, Text, Truncated;
  }

  lemma BufferSizeCases(fine: string, coarse: string)
    requires 0 < |fine| <= Engine.MAX_TRIGGERS && |coarse| <= Engine.MAX_TRIGGERS
    ensures BufferSize(fine, coarse) == |fine| + (if coarse == [] then 0 else |coarse|) + 21
  {
    Engine.SignLengthCases(fine);
    Engine.SignLengthCases(coarse);
  }

  lemma CoarsePower(m: nat, k: nat)
    requires m < 64 && k <= m
    ensures CoarseBlock(Pow2(m), k) == if k == 0 && m == 63 then 0 else Pow2(m - k + 1)
  {
    if k == 0 {
      WordPowers();
      if m < 63 {
        Pow2Monotone(m + 1, 63);
        assert Pow2(64) == 2 * Pow2(63);
      }
    } else {
      BlockOfPower(m, k - 1);
    }
  }

  /** What is printed when round `k` is chosen. */
  lemma PrintedAtRound(s: seq<byte>, m: nat, k: nat)
    requires m < 64 && k <= m && k < 16 && k == Chosen(s, Pow2(m), 0)
    ensures Expected(s, Pow2(m)) == Printed(s, Pow2(m - k), if k == 0 && m == 63 then 0 else Pow2(m - k + 1))
  {
    hide Printed, Chosen, CoarseBlock;
    BlockOfPower(m, k);
    CoarsePower(m, k);
  }

  /** The outcome `r` is decided by the lengths of three signatures: for the first block size, for
      the finest one that the search can reach, and for 2^63, which cannot be doubled. */
  predicate IsDecided(s: seq<byte>, m: nat, r: Outcome) {
    var found := SigLen(s, m - LastRound(m)) > 32;
    var overflows := m == 63 && SigLen(s, 63) > 32;
    && (r.Hashed? <==> SigLen(s, m) > 0 && found && !overflows)
    && (r.NoHash? <==> SigLen(s, m) > 0 && ((m < 15 && !found) || overflows))
    && (r.Undefined? <==> SigLen(s, m) == 0 || (m >= 15 && !found))
  }

  /** Exactly when the search prints a hash, returns none, or is undefined. */
  lemma SearchOutcome(s: seq<byte>, m: nat)
    requires m < 64
    ensures IsDecided(s, m, Expected(s, Pow2(m)))
  {
    hide SigLen, Chosen, Expected;
    SigLenAntitone(s, m - LastRound(m), m);
    if SigLen(s, m) == 0 {
      EmptyStops(s, m);
      KindAtRound(s, m, 0);
    } else {
      var k := ChosenRound(s, m);
      if k <= LastRound(m) {
        KindAtRound(s, m, k);
      } else {
        NothingChosen(s, m, k);
      }
    }
  }

  lemma KindAtRound(s: seq<byte>, m: nat, k: nat)
    requires m < 64 && k <= m && k < 16 && k == Chosen(s, Pow2(m), 0)
    ensures SigLen(s, m - k) == 0 ==> Expected(s, Pow2(m)) == Undefined
    ensures SigLen(s, m - k) > 0 ==>
              if k == 0 && m == 63 then Expected(s, Pow2(m)) == NoHash else Expected(s, Pow2(m)).Hashed?
  {
    hide Engine.Signature, Chosen, Expected;
    PrintedAtRound(s, m, k);
  }

  lemma ZeroBlockGivesNoHash(s: seq<byte>)
    ensures Expected(s, 0) == NoHash
  {
    ZeroStops(s);
    assert Chosen(s, 0, 0) == 0;
  }

  /** The outcome for every estimate: no hash if it leaves no block size, and otherwise what is
      decided at the power of two that it leads to: twice the lowest bit in its highest byte. */
  lemma OutcomeForEstimate(s: seq<byte>, estimate: bv64)
    ensures
      var firstBlock := BlockStart.FirstBlockSize(estimate);
      if BlockStart.LeavesNoBlock(estimate) then Expected(s, firstBlock) == NoHash
      else
        && BlockStart.Value(estimate, 8) > 0
        && var m := BlockStart.LeftmostExponent(BlockStart.Value(estimate, 8)) + 1;
           1 <= m < 64 && firstBlock == Pow2(m) && IsDecided(s, m, Expected(s, firstBlock))
  {
    hide BlockStart.FirstBlockSize, BlockStart.LeavesNoBlock, Expected, IsDecided;
    BlockStart.FirstBlockSizeIsPowerOfTwo(estimate);
    if !BlockStart.LeavesNoBlock(estimate) {
      BlockStart.ZeroLeavesNoBlock(estimate);
      BlockStart.FirstBlockSizeInNumbers(estimate);
    }
    hide BlockStart.LeftmostExponent, BlockStart.Value;
    if BlockStart.LeavesNoBlock(estimate) {
      ZeroBlockGivesNoHash(s);
    } else {
      SearchOutcome(s, BlockStart.LeftmostExponent(BlockStart.Value(estimate, 8)) + 1);
    }
  }

  lemma EmptyStops(s: seq<byte>, m: nat)
    requires SigLen(s, m) == 0
    ensures Chosen(s, Pow2(m), 0) == 0
  {
    hide Engine.Signature;
    Engine.SignLengthCases(Engine.Signature(s, Pow2(m)));
    assert Block(Pow2(m), 0) == Pow2(m);
  }

  lemma NothingChosen(s: seq<byte>, m: nat, k: nat)
    requires k == Chosen(s, Pow2(m), 0) == LastRound(m) + 1
    ensures Expected(s, Pow2(m)) == if m < 15 then NoHash else Undefined
  {
    hide Chosen;
    BlockOfPower(m, k);
  }

  /** The text for block size 2^j as it is printed: from 2^60 on its last character is missing. */
  function PrintedText(s: seq<byte>, j: nat): string {
    var text := Text(Pow2(j), Engine.Signature(s, Pow2(j)), Engine.Signature(s, Pow2(j + 1)));
    if j < 60 then text else text[..|text| - 1]
  }

  /** The block size that the search settles on is the largest one, among the first block size
      and its halves, with a signature of more than 32 characters. The text is that block size, its
      signature, and the signature for the double block size; it is complete exactly below 2^60. */
  lemma SearchFindsLargestBlock(s: seq<byte>, m: nat) returns (j: nat)
    requires m < 64 && Expected(s, Pow2(m)).Hashed?
    ensures j <= m <= j + 15 && j < 63
    ensures forall i :: 0 <= i <= m ==> (SigLen(s, i) > 32 <==> i <= j)
    ensures Expected(s, Pow2(m)) == Hashed(PrintedText(s, j))
    ensures
      var complete := Text(Pow2(j), Engine.Signature(s, Pow2(j)), Engine.Signature(s, Pow2(j + 1)));
      Expected(s, Pow2(m)) == Hashed(complete) <==> j < 60
  {
    hide Engine.Signature, Chosen, Expected, Text, Truncated, BufferSize, Missing;
    SearchOutcome(s, m);
    var k := ChosenRound(s, m);
    j := m - k;
    PrintedAtRound(s, m, k);
    LargePowers(j);
    TextLosesMissing(Pow2(j), Engine.Signature(s, Pow2(j)), Engine.Signature(s, Pow2(j + 1)));
    var text := Text(Pow2(j), Engine.Signature(s, Pow2(j)), Engine.Signature(s, Pow2(j + 1)));
    assert text[..|text|] == text;
    forall i | 0 <= i <= m ensures SigLen(s, i) > MIN_LENGTH <==> i <= j {
      if i <= j {
        SigLenAntitone(s, i, j);
      }
    }
  }

  /** From 2^60 to 2^63 a block size prints with 19 digits. */
  lemma LargePowers(j: nat)
    requires j < 64
    ensures Pow2(j) <= ULONG_MAX
    ensures Pow2(j) < Decimal.Pow10(18) <==> j < 60
    ensures Missing(Pow2(j)) == if j < 60 then 0 else 1
  {
    hide Pow2, Decimal.Print, Decimal.Pow10;
    PowersFrom59();
    TenTo18();
    if j < 60 {
      Pow2Monotone(j, 59);
    } else {
      Pow2Monotone(60, j);
      Pow2Monotone(j, 63);
    }
    Decimal.PrintLength(Pow2(j), 18);
    Decimal.PrintLength(Pow2(j), 19);
  }

  lemma PowersFrom59()
    ensures Pow2(59) == 0x800_0000_0000_0000 && Pow2(60) == 0x1000_0000_0000_0000
    ensures Pow2(63) == 0x8000_0000_0000_0000
  {
    WordPowers();
    BlockStart.EightDoublings(56);
  }

  lemma TenTo18()
    ensures Decimal.Pow10(18) == 1_000_000_000_000_000_000
    ensures Decimal.Pow10(19) == 10_000_000_000_000_000_000
  {
    assert Decimal.Pow10(6) == 1_000_000;
    assert Decimal.Pow10(12) == 1_000_000_000_000;
  }

  /** For a first block size of at most 2^15 the search prints a hash if and only if the stream has
      39 bytes or more and its first signature is not empty. */
  lemma SearchSucceedsIff(s: seq<byte>, m: nat)
    requires m <= 15
    ensures Expected(s, Pow2(m)).Hashed? <==> |s| >= 39 && SigLen(s, m) > 0
  {
    Engine.SignatureLengthAtOne(s);
    assert SigLen(s, 0) == |Engine.Signature(s, 1)|;
    hide Engine.Signature, SigLen, Expected;
    SearchOutcome(s, m);
  }

  /** In particular from 61 bytes on, where the size estimate is not zero, unless the hash of the
      whole stream happens to be the FNV offset basis. */
  lemma SearchSucceeds(s: seq<byte>, m: nat)
    requires |s| >= 61 && m <= 15 && Fnv.Hash(s) != Fnv.FNV_OFFSET_BASIS
    ensures Expected(s, Pow2(m)).Hashed?
  {
    Engine.EmptySignature(s, Pow2(m));
    hide Engine.Signature, Expected;
    SearchSucceedsIff(s, m);
  }

  /** All block sizes from 2^32 on have the same signature, so a first block size of 2^47 or more,
      whose finest round does not leave them, settles everything in the first round. */
  lemma HugeFirstBlockOutcome(s: seq<byte>, m: nat)
    requires 47 <= m < 64
    ensures
      var r := Expected(s, Pow2(m));
      && (r.Hashed? <==> SigLen(s, 32) > 32 && m < 63)
      && (r.NoHash? <==> SigLen(s, 32) > 32 && m == 63)
      && (r.Undefined? <==> SigLen(s, 32) <= 32)
      && (r.Hashed? ==> r == Hashed(PrintedText(s, m)))
  {
    Engine.HugeBlocksSignAlike(s, m);
    Engine.HugeBlocksSignAlike(s, m - 15);
    assert SigLen(s, m) == SigLen(s, 32) == SigLen(s, m - 15);
    hide Engine.Signature, SigLen, Expected, PrintedText;
    SearchOutcome(s, m);
    if Expected(s, Pow2(m)).Hashed? {
      var j := SearchFindsLargestBlock(s, m);
      assert SigLen(s, m) > MIN_LENGTH <==> m <= j;
    }
  }

  // ---------- A stream that triggers at every block size ----------

  lemma ZeroTriggersBehind(p: seq<byte>, n: nat, i: nat, blockSize: nat)
    requires |p| >= Engine.WINDOW_SIZE - 1 && RollingHash.A(p) == 0 && RollingHash.B(p) == 0
    requires i < n && blockSize > 0
    ensures Engine.TriggersBehind(p, Zeros(n), i, blockSize)
  {
    hide Engine.TriggersBehind, RollingHash.A, RollingHash.B;
    assert Zeros(n)[..i + 1] == Zeros(i + 1);
    RollingHash.ZerosBehind(p, i + 1);
    Engine.TriggersBehindByChecksum(p, Zeros(n), i, blockSize);
    RemainderIs(0, blockSize, 0, 0);
  }

  lemma {:induction false} ZerosTriggerBehind(p: seq<byte>, n: nat, i: nat, blockSize: nat)
    requires |p| >= Engine.WINDOW_SIZE - 1 && RollingHash.A(p) == 0 && RollingHash.B(p) == 0
    requires i <= n && blockSize > 0
    ensures |Engine.EndsBehind(p, Zeros(n), i, blockSize)| == i
  {
    if i == 0 {
    } else {
      hide Engine.TriggersBehind, RollingHash.A, RollingHash.B;
      ZerosTriggerBehind(p, n, i - 1, blockSize);
      ZeroTriggersBehind(p, n, i - 1, blockSize);
    }
  }

  lemma StreamThatAlwaysTriggers() returns (s: seq<byte>)
    ensures forall j :: j >= 0 ==> SigLen(s, j) == Engine.MAX_TRIGGERS
  {
    hide RollingHash.A, RollingHash.B, Pow2;
    var t := RollingHash.SuffixToZero(Zeros(6));
    var p := Zeros(6) + t;
    s := p + Zeros(Engine.MAX_TRIGGERS);
    forall j: nat ensures SigLen(s, j) == Engine.MAX_TRIGGERS {
      ZerosTriggerBehind(p, Engine.MAX_TRIGGERS, Engine.MAX_TRIGGERS, Pow2(j));
      Engine.TriggersSplit(p, Zeros(Engine.MAX_TRIGGERS), Engine.MAX_TRIGGERS, Pow2(j));
    }
  }

  /** A stream whose printed text loses its last character, for the first block sizes from 2^60 on
      that give a text at all. */
  lemma SomeTextIsShortened(m: nat) returns (s: seq<byte>)
    requires 1 <= m < 63
    ensures Expected(s, Pow2(m)) == Hashed(PrintedText(s, m))
    ensures
      var complete := Text(Pow2(m), Engine.Signature(s, Pow2(m)), Engine.Signature(s, Pow2(m + 1)));
      m >= 60 ==> PrintedText(s, m) == complete[..|complete| - 1]
  {
    hide Engine.Signature, SigLen, Expected, Text, Pow2;
    s := StreamThatAlwaysTriggers();
    SearchOutcome(s, m);
    var j := SearchFindsLargestBlock(s, m);
    assert SigLen(s, m) > MIN_LENGTH <==> m <= j;
  }

  // ---------- Streams of zero bytes ----------

  /** The checksum of zero bytes is odd, so no even block size has a trigger point. */
  lemma {:induction false} ZerosNeverTrigger(n: nat, i: nat, j: nat)
    requires i <= n && j > 0
    ensures Engine.Triggers(Zeros(n), i, Pow2(j)) == []
  {
    if i == 0 {
    } else {
      ZerosNeverTrigger(n, i - 1, j);
      var x := RollingHash.Checksum(Zeros(n)[..i]);
      assert Zeros(n)[..i] == Zeros(i);
      RollingHash.ChecksumOfZeros(i);
      Engine.DividesTransitive(x, 2, Pow2(j - 1));
    }
  }

  /** A stream of zero bytes of any length keeps the search going, from 2^16 on until its
      coefficient is zero. */
  lemma ZerosDivideByZero(n: nat, m: nat)
    requires 16 <= m < 64
    ensures Expected(Zeros(n), Pow2(m)) == Undefined
  {
    hide Engine.Signature, Expected;
    ZerosNeverTrigger(n, n, m - 15);
    Engine.SignatureWithoutTriggers(Zeros(n), Pow2(m - 15));
    assert SigLen(Zeros(n), m - 15) <= 1;
    hide SigLen;
    SearchOutcome(Zeros(n), m);
  }

  /** The freed signature is used exactly when the number of zero bytes is a multiple of 2^62. */
  lemma ZerosHaveNoSignatureIff(n: nat, j: nat)
    requires j > 0
    ensures SigLen(Zeros(n), j) == 0 <==> n % Pow2(62) == 0
  {
    hide Engine.Signature, Pow2, Fnv.Hash;
    ZerosNeverTrigger(n, n, j);
    Engine.EmptySignature(Zeros(n), Pow2(j));
    Fnv.ZerosHashToBasisIff(n);
  }

  /** What the search does with zero bytes, for each number of them and each first block size. */
  lemma ZerosOutcome(n: nat, m: nat)
    requires 1 <= m < 64
    ensures
      var r := Expected(Zeros(n), Pow2(m));
      && (r.Undefined? <==> m >= 16 || n % Pow2(62) == 0 || (m == 15 && n < 39))
      && (r.Hashed? <==> m <= 15 && n % Pow2(62) != 0 && n >= 39)
  {
    hide SigLen, Expected, Pow2;
    ZerosHaveNoSignatureIff(n, m);
    if m >= 16 {
      ZerosDivideByZero(n, m);
    } else {
      SearchOutcome(Zeros(n), m);
      SearchSucceedsIff(Zeros(n), m);
    }
  }
}
