/** The signature engine of src/ctph.c (`ctph_hash_engine`), proved against a definition on
    the whole byte stream: where the trigger points are, and which piece of the stream each
    character of the signature hashes. */
module Engine {
  import opened Words
  import opened Elf
  import Fnv
  import RollingHash

  const WINDOW_SIZE := 7
  const SIGN_LENGTH := 64
  const MAX_TRIGGERS := SIGN_LENGTH - 1

  // ---------- Trigger points and pieces ----------

  /** Byte `i` ends a piece: the window is warm and the block size divides the checksum. */
  predicate IsTrigger(s: seq<byte>, i: nat, blockSize: nat)
    requires i < |s| && blockSize > 0
  {
    i >= WINDOW_SIZE - 1 && RollingHash.Checksum(s[..i + 1]) % blockSize == 0
  }

  /** The ends of the pieces among the first `n` bytes, without the cap. */
  function Triggers(s: seq<byte>, n: nat, blockSize: nat): (t: seq<nat>)
    requires n <= |s| && blockSize > 0
    ensures forall c :: c in t <==> 0 < c <= n && IsTrigger(s, c - 1, blockSize)
    ensures forall k :: 0 <= k < |t| ==> 0 < t[k] <= n
    ensures forall j, k :: 0 <= j < k < |t| ==> t[j] < t[k]
  {
    if n == 0 then []
    else
      Triggers(s, n - 1, blockSize) + (if IsTrigger(s, n - 1, blockSize) then [n] else [])
  }

  /** The ends of the pieces: the first 63 trigger points. */
  function Cuts(s: seq<byte>, blockSize: nat): (t: seq<nat>)
    requires blockSize > 0
    ensures |t| <= MAX_TRIGGERS
    ensures forall k :: 0 <= k < |t| ==> 0 < t[k] <= |s|
    ensures forall j, k :: 0 <= j < k < |t| ==> t[j] < t[k]
  {
    var t := Triggers(s, |s|, blockSize);
    t[..Min(|t|, MAX_TRIGGERS)]
  }

  predicate AreCuts(s: seq<byte>, cuts: seq<nat>) {
    && (forall k :: 0 <= k < |cuts| ==> 0 < cuts[k] <= |s|)
    && (forall j, k :: 0 <= j < k < |cuts| ==> cuts[j] < cuts[k])
  }

  /** Where piece `k` starts, which is where piece `k - 1` ended. */
  function Start(cuts: seq<nat>, k: nat): nat
    requires k <= |cuts|
  {
    if k == 0 then 0 else cuts[k - 1]
  }

  function Piece(s: seq<byte>, cuts: seq<nat>, k: nat): seq<byte>
    requires AreCuts(s, cuts) && k < |cuts|
  {
    s[Start(cuts, k)..cuts[k]]
  }

  function PieceDigits(s: seq<byte>, cuts: seq<nat>): (digits: string)
    requires AreCuts(s, cuts)
    ensures |digits| == |cuts|
    ensures forall k :: 0 <= k < |cuts| ==> digits[k] == Fnv.Digit(Fnv.Hash(Piece(s, cuts, k)))
  {
    seq(|cuts|, k requires 0 <= k < |cuts| => Fnv.Digit(Fnv.Hash(Piece(s, cuts, k))))
  }

  /** What follows the last trigger point; dropped once the 63 pieces are complete. */
  function Tail(s: seq<byte>, cuts: seq<nat>): seq<byte>
    requires AreCuts(s, cuts)
  {
    if |cuts| == MAX_TRIGGERS then [] else s[Start(cuts, |cuts|)..]
  }

  function TailDigits(tail: seq<byte>): string {
    if Fnv.Hash(tail) == Fnv.FNV_OFFSET_BASIS then [] else [Fnv.Digit(Fnv.Hash(tail))]
  }

  function Signature(s: seq<byte>, blockSize: nat): (signature: string)
    requires blockSize > 0
    ensures |signature| <= MAX_TRIGGERS
  {
    PieceDigits(s, Cuts(s, blockSize)) + TailDigits(Tail(s, Cuts(s, blockSize)))
  }

  /** `count - 1` in 16 bits: 65535 for the empty signature. */
  function SignLength(signature: string): (n: nat)
    ensures n < UINT16_MOD
  {
    (|signature| - 1) % UINT16_MOD
  }

  lemma SignLengthCases(signature: string)
    requires |signature| <= MAX_TRIGGERS
    ensures SignLength(signature) == if signature == [] then UINT16_MOD - 1 else |signature| - 1
  {
  }

  // ---------- The engine ----------

  method CtphHashEngine(data: ElfData, blockSize: nat) returns (finalHash: Option<string>, signLength: nat)
    ensures blockSize == 0 ==> finalHash == None
    ensures blockSize > 0 ==> finalHash == Some(Signature(Stream(data), blockSize))
    ensures blockSize > 0 ==> signLength == SignLength(finalHash.value)
  {
    hide Consumed, Signature, Concat, RollingHash.Checksum;
    if blockSize == 0 {
      return None, 0;
    }
    var state := new RollingHash.State();
    var hash := Fnv.FNV_OFFSET_BASIS;
    var signature := new char[SIGN_LENGTH + 1];
    var window: nat := 1;
    var count: nat := 0;

    ghost var s := Stream(data);
    ghost var n := 0; // bytes consumed
    NothingConsumed(data, blockSize);
    for i := 0 to SECTION_END
      invariant fresh(state) && fresh(signature) && signature.Length == SIGN_LENGTH + 1
      invariant count <= MAX_TRIGGERS && n <= |s| && state.Valid() && state.stream == s[..n]
      invariant Consumed(s, n, blockSize, hash, window, signature[..count])
      invariant count < MAX_TRIGGERS ==> n == |Concat(data[..i])|
    {
      if |data[i]| != 0 {
        var byte := 0;
        while byte < |data[i]| && count < MAX_TRIGGERS
          invariant byte <= |data[i]|
          invariant count <= MAX_TRIGGERS && n <= |s| && state.Valid() && state.stream == s[..n]
          invariant Consumed(s, n, blockSize, hash, window, signature[..count])
          invariant count < MAX_TRIGGERS ==> n == |Concat(data[..i])| + byte
        {
          StreamIndex(data, i, byte);
          hash, window, count := MoveWindow(state, hash, window, count, signature, data[i][byte], blockSize, s, n);
          n := n + 1;
          byte := byte + 1;
        }
      }
      StreamIndex(data, i, 0);
    }
    assert data[..SECTION_END] == data;
    AllConsumed(s, n, blockSize, hash, window, signature[..count]);
    finalHash, signLength := Finish(hash, count, signature);
  }

  /** The end of the engine: the tail character, the length and the copy. */
  method Finish(hash: Fnv.word, count: nat, signature: array<char>)
    returns (finalHash: Option<string>, signLength: nat)
    requires signature.Length == SIGN_LENGTH + 1 && count <= MAX_TRIGGERS
    modifies signature
    ensures finalHash ==
            Some(old(signature[..count]) + if hash == Fnv.FNV_OFFSET_BASIS then [] else [Fnv.Digit(hash)])
    ensures signLength == SignLength(finalHash.value)
  {
    var last := count;
    if hash != Fnv.FNV_OFFSET_BASIS {
      signature[count] := Fnv.Digit(hash);
      last := count + 1;
    }
    signLength := (last - 1) % UINT16_MOD;
    signature[last] := '\0';
    assert signature[..last] ==
           old(signature[..count]) + if hash == Fnv.FNV_OFFSET_BASIS then [] else [Fnv.Digit(hash)];
    finalHash := Some(signature[..last]);
  }

  /** The body of the inner loop. */
  method MoveWindow(state: RollingHash.State, hash: Fnv.word, window: nat, count: nat, signature: array<char>,
                    byte: byte, blockSize: nat, ghost s: seq<byte>, ghost n: nat)
    returns (hash': Fnv.word, window': nat, count': nat)
    requires signature.Length == SIGN_LENGTH + 1 && blockSize > 0 && count < MAX_TRIGGERS
    requires n < |s| && s[n] == byte && state.Valid() && state.stream == s[..n]
    requires Consumed(s, n, blockSize, hash, window, signature[..count])
    modifies state, signature
    ensures state.Valid() && state.stream == s[..n + 1]
    ensures count' <= MAX_TRIGGERS
    ensures Consumed(s, n + 1, blockSize, hash', window', signature[..count'])
  {
    hide Consumed, RollingHash.Checksum;
    ghost var digits := signature[..count];
    ByteConsumed(s, n, blockSize, hash, window, digits);
    state.AddByte(byte);
    assert state.stream == s[..n + 1];
    hash', window', count' := Fnv.AddByte(hash, byte), window, count;
    if window < WINDOW_SIZE {
      window' := window + 1;
    } else if state.h % blockSize == 0 {
      signature[count] := Fnv.Digit(hash');
      count' := count + 1;
      assert signature[..count'] == digits + [Fnv.Digit(hash')];
      hash' := Fnv.FNV_OFFSET_BASIS;
    }
  }

  /** What the loops keep: the variables say everything about the first `n` bytes. */
  ghost predicate Consumed(s: seq<byte>, n: nat, blockSize: nat, hash: Fnv.word, window: nat, digits: string)
    requires n <= |s| && blockSize > 0
  {
    var cuts := Triggers(s, n, blockSize);
    && window == Min(n + 1, WINDOW_SIZE)
    && |cuts| <= MAX_TRIGGERS
    && digits == PieceDigits(s, cuts)
    && hash == Fnv.Hash(s[Start(cuts, |cuts|)..n])
    && (|cuts| == MAX_TRIGGERS ==> n == Start(cuts, |cuts|))
  }

  lemma NothingConsumed(data: ElfData, blockSize: nat)
    requires blockSize > 0
    ensures Consumed(Stream(data), 0, blockSize, Fnv.FNV_OFFSET_BASIS, 1, [])
    ensures |Concat(data[..0])| == 0
  {
  }

  /** One more byte, in the three ways the loop body can treat it. */
  lemma ByteConsumed(s: seq<byte>, n: nat, blockSize: nat, hash: Fnv.word, window: nat, digits: string)
    requires n < |s| && blockSize > 0 && |digits| < MAX_TRIGGERS
    requires Consumed(s, n, blockSize, hash, window, digits)
    ensures
      var hash' := Fnv.AddByte(hash, s[n]);
      if window < WINDOW_SIZE then Consumed(s, n + 1, blockSize, hash', window + 1, digits)
      else if RollingHash.Checksum(s[..n + 1]) % blockSize != 0 then
        Consumed(s, n + 1, blockSize, hash', window, digits)
      else
        Consumed(s, n + 1, blockSize, Fnv.FNV_OFFSET_BASIS, window, digits + [Fnv.Digit(hash')])
  {
    var cuts := Triggers(s, n, blockSize);
    PieceGrows(s, Start(cuts, |cuts|), n);
    if IsTrigger(s, n, blockSize) {
      assert Triggers(s, n + 1, blockSize) == cuts + [n + 1];
      OneMoreDigit(s, cuts, n + 1);
    } else {
      assert Triggers(s, n + 1, blockSize) == cuts;
    }
  }

  lemma OneMoreDigit(s: seq<byte>, cuts: seq<nat>, c: nat)
    requires AreCuts(s, cuts) && AreCuts(s, cuts + [c]) && Start(cuts, |cuts|) <= c <= |s|
    ensures PieceDigits(s, cuts + [c]) == PieceDigits(s, cuts) + [Fnv.Digit(Fnv.Hash(s[Start(cuts, |cuts|)..c]))]
  {
    forall k | 0 <= k < |cuts| ensures Piece(s, cuts + [c], k) == Piece(s, cuts, k) {
    }
  }

  /** At the end, consumed or cut off at 63 triggers, the digits are those of the whole stream. */
  lemma AllConsumed(s: seq<byte>, n: nat, blockSize: nat, hash: Fnv.word, window: nat, digits: string)
    requires n <= |s| && blockSize > 0
    requires Consumed(s, n, blockSize, hash, window, digits)
    requires |digits| < MAX_TRIGGERS ==> n == |s|
    ensures Signature(s, blockSize) ==
            digits + if hash == Fnv.FNV_OFFSET_BASIS then [] else [Fnv.Digit(hash)]
  {
    var cuts := Triggers(s, n, blockSize);
    TriggersExtend(s, n, |s|, blockSize);
    assert cuts == Cuts(s, blockSize);
    assert s[Start(cuts, |cuts|)..n] == Tail(s, cuts);
    assert TailDigits(Tail(s, cuts)) == if hash == Fnv.FNV_OFFSET_BASIS then [] else [Fnv.Digit(hash)];
  }

  lemma PieceGrows(s: seq<byte>, start: nat, n: nat)
    requires start <= n < |s|
    ensures Fnv.Hash(s[start..n + 1]) == Fnv.AddByte(Fnv.Hash(s[start..n]), s[n])
  {
    assert s[start..n + 1][..n - start] == s[start..n];
  }

  lemma {:induction false} TriggersExtend(s: seq<byte>, n: nat, m: nat, blockSize: nat)
    requires n <= m <= |s| && blockSize > 0
    ensures Triggers(s, n, blockSize) <= Triggers(s, m, blockSize)
    decreases m - n
  {
    if n == m {
    } else {
      TriggersExtend(s, n, m - 1, blockSize);
    }
  }

  // ---------- What the signature says ----------

  /** The stream that the engine hashes: all of it, or up to the 63rd trigger point. */
  function ConsumedStream(s: seq<byte>, cuts: seq<nat>): seq<byte>
    requires AreCuts(s, cuts)
  {
    if |cuts| == MAX_TRIGGERS then s[..cuts[MAX_TRIGGERS - 1]] else s
  }

  function JoinPieces(s: seq<byte>, cuts: seq<nat>, m: nat): seq<byte>
    requires AreCuts(s, cuts) && m <= |cuts|
  {
    if m == 0 then [] else JoinPieces(s, cuts, m - 1) + Piece(s, cuts, m - 1)
  }

  lemma {:induction false} JoinPiecesIsPrefix(s: seq<byte>, cuts: seq<nat>, m: nat)
    requires AreCuts(s, cuts) && m <= |cuts|
    ensures JoinPieces(s, cuts, m) == s[..Start(cuts, m)]
  {
    if m == 0 {
    } else {
      JoinPiecesIsPrefix(s, cuts, m - 1);
    }
  }

  /** The pieces and the tail concatenate back to the consumed stream: no byte is skipped or hashed twice. */
  lemma PiecesPartitionStream(s: seq<byte>, blockSize: nat)
    requires blockSize > 0
    ensures
      var cuts := Cuts(s, blockSize);
      JoinPieces(s, cuts, |cuts|) + Tail(s, cuts) == ConsumedStream(s, cuts)
  {
    PiecesPartition(s, Cuts(s, blockSize));
  }

  lemma PiecesPartition(s: seq<byte>, cuts: seq<nat>)
    requires AreCuts(s, cuts)
    ensures JoinPieces(s, cuts, |cuts|) + Tail(s, cuts) == ConsumedStream(s, cuts)
  {
    hide Piece, JoinPieces;
    JoinPiecesIsPrefix(s, cuts, |cuts|);
    assert s[..Start(cuts, |cuts|)] + s[Start(cuts, |cuts|)..] == s;
  }

  /** The cuts are exactly the first 63 trigger points. */
  lemma CutsAreFirstTriggers(s: seq<byte>, blockSize: nat, i: nat)
    requires blockSize > 0 && i < |s|
    ensures
      var cuts := Cuts(s, blockSize);
      i + 1 in cuts <==> IsTrigger(s, i, blockSize) && (|cuts| == MAX_TRIGGERS ==> i + 1 <= cuts[MAX_TRIGGERS - 1])
  {
    var t := Triggers(s, |s|, blockSize);
    if IsTrigger(s, i, blockSize) {
      assert i + 1 in t;
    }
    assert forall k :: 0 <= k < |t| ==> t[k] in t;
  }

  /** Character `k` of the signature hashes the bytes from one trigger point to the next: the
      last of them triggers and none before it does. */
  lemma CharacterHashesPiece(s: seq<byte>, blockSize: nat, k: nat)
    requires blockSize > 0 && k < |Cuts(s, blockSize)|
    ensures
      var start, end := Start(Cuts(s, blockSize), k), Cuts(s, blockSize)[k];
      && start < end <= |s| && (start > 0 ==> IsTrigger(s, start - 1, blockSize))
      && IsTrigger(s, end - 1, blockSize)
      && (forall i :: start <= i < end - 1 ==> !IsTrigger(s, i, blockSize))
      && k < |Signature(s, blockSize)| && Signature(s, blockSize)[k] == Fnv.Digit(Fnv.Hash(s[start..end]))
  {
    hide IsTrigger, Triggers, Tail, TailDigits;
    var cuts, t := Cuts(s, blockSize), Triggers(s, |s|, blockSize);
    assert cuts[k] in t && (k > 0 ==> cuts[k - 1] in t);
    forall i | Start(cuts, k) <= i < cuts[k] - 1 ensures !IsTrigger(s, i, blockSize) {
      NotBetween(t, k, i + 1);
    }
    assert Piece(s, cuts, k) == s[Start(cuts, k)..cuts[k]];
  }

  lemma NotBetween(t: seq<nat>, k: nat, c: nat)
    requires forall i, j :: 0 <= i < j < |t| ==> t[i] < t[j]
    requires k < |t| && c < t[k] && (k > 0 ==> t[k - 1] < c)
    ensures c !in t
  {
    if c in t {
      var j :| 0 <= j < |t| && t[j] == c;
      assert false;
    }
  }

  /** Two streams with a common prefix have a common signature prefix: one character for each
      trigger point of the common part. */
  lemma CommonPrefixGivesCommonDigits(p: seq<byte>, x: seq<byte>, y: seq<byte>, blockSize: nat)
    requires blockSize > 0
    ensures
      var m := Min(|Triggers(p, |p|, blockSize)|, MAX_TRIGGERS);
      && m <= |Signature(p + x, blockSize)| && m <= |Signature(p + y, blockSize)|
      && Signature(p + x, blockSize)[..m] == Signature(p + y, blockSize)[..m]
  {
    PrefixDigits(p, x, blockSize);
    PrefixDigits(p, y, blockSize);
  }

  lemma PrefixDigits(p: seq<byte>, x: seq<byte>, blockSize: nat)
    requires blockSize > 0
    ensures PieceDigits(p, Cuts(p, blockSize)) <= Signature(p + x, blockSize)
  {
    TriggersOfPrefix(p, x, |p|, blockSize);
    TriggersExtend(p + x, |p|, |p + x|, blockSize);
    DigitsOfPrefix(p, x, Cuts(p, blockSize), Cuts(p + x, blockSize));
  }

  lemma DigitsOfPrefix(p: seq<byte>, x: seq<byte>, cuts: seq<nat>, more: seq<nat>)
    requires AreCuts(p, cuts) && AreCuts(p + x, more) && cuts <= more
    ensures PieceDigits(p, cuts) <= PieceDigits(p + x, more)
  {
    forall k | 0 <= k < |cuts| ensures Piece(p, cuts, k) == Piece(p + x, more, k) {
      assert Start(cuts, k) == Start(more, k);
    }
  }

  lemma {:induction false} TriggersOfPrefix(p: seq<byte>, x: seq<byte>, n: nat, blockSize: nat)
    requires blockSize > 0 && n <= |p|
    ensures Triggers(p, n, blockSize) == Triggers(p + x, n, blockSize)
  {
    if n == 0 {
    } else {
      TriggersOfPrefix(p, x, n - 1, blockSize);
      assert p[..n] == (p + x)[..n];
    }
  }

  /** Whether byte `i` of a suffix triggers behind a prefix of at least six bytes. */
  predicate TriggersBehind(p: seq<byte>, t: seq<byte>, i: nat, blockSize: nat)
    requires i < |t| && blockSize > 0
  {
    IsTrigger(p + t, |p| + i, blockSize)
  }

  lemma TriggersBehindByChecksum(p: seq<byte>, t: seq<byte>, i: nat, blockSize: nat)
    requires |p| >= WINDOW_SIZE - 1 && i < |t| && blockSize > 0
    ensures TriggersBehind(p, t, i, blockSize) <==> RollingHash.Checksum(p + t[..i + 1]) % blockSize == 0
  {
    assert (p + t)[..|p| + i + 1] == p + t[..i + 1];
  }

  /** Behind `p` and behind `q` every suffix has the same trigger points. */
  ghost predicate SameTriggersBehind(p: seq<byte>, q: seq<byte>, blockSize: nat)
    requires blockSize > 0
  {
    forall t: seq<byte>, i: nat | i < |t| :: TriggersBehind(p, t, i, blockSize) <==> TriggersBehind(q, t, i, blockSize)
  }

  /** For every block size that the search may pass, 2^j: different prefixes find back to common
      trigger points if and only if the first halves of their checksums are equal and, from 2^17 on,
      the second halves too. The checksum covers everything before a byte, not a window, so equal
      bytes alone do not bring the triggers back. */
  lemma SuffixTriggersIff(p: seq<byte>, q: seq<byte>, j: nat)
    requires |p| >= WINDOW_SIZE - 1 && |q| >= WINDOW_SIZE - 1
    ensures SameTriggersBehind(p, q, Pow2(j)) <==>
            j == 0 || (RollingHash.A(p) == RollingHash.A(q) && (j <= 16 || RollingHash.B(p) == RollingHash.B(q)))
  {
    hide TriggersBehind, RollingHash.Checksum, RollingHash.A, RollingHash.B, SameTriggersBehind;
    if j == 0 || (RollingHash.A(p) == RollingHash.A(q) && (j <= 16 || RollingHash.B(p) == RollingHash.B(q))) {
      EqualHalvesSuffice(p, q, j);
    } else if j <= 16 {
      var t := FirstHalfMatters(p, q, j);
      SuffixSeparates(p, q, t, j);
    } else if RollingHash.A(p) != RollingHash.A(q) {
      var t := RollingHash.SuffixToZero(p);
      RollingHash.ChecksumConcat(p, t);
      RollingHash.ChecksumConcat(q, t);
      RollingHash.LargePowerDividesIff(p + t, j);
      RollingHash.LargePowerDividesIff(q + t, j);
      FirstHalvesDiffer(p, q, t);
      assert 0 % Pow2(j - 16) == 0;
      SuffixSeparates(p, q, t, j);
    } else {
      var t := SecondHalfMatters(p, q, j);
      SuffixSeparates(p, q, t, j);
    }
  }

  lemma EqualHalvesSuffice(p: seq<byte>, q: seq<byte>, j: nat)
    requires |p| >= WINDOW_SIZE - 1 && |q| >= WINDOW_SIZE - 1
    requires j == 0 || (RollingHash.A(p) == RollingHash.A(q) && (j <= 16 || RollingHash.B(p) == RollingHash.B(q)))
    ensures SameTriggersBehind(p, q, Pow2(j))
  {
    hide TriggersBehind, RollingHash.Checksum, RollingHash.A, RollingHash.B;
    forall t: seq<byte>, i: nat | i < |t|
      ensures TriggersBehind(p, t, i, Pow2(j)) <==> TriggersBehind(q, t, i, Pow2(j))
    {
      var u := t[..i + 1];
      TriggersBehindByChecksum(p, t, i, Pow2(j));
      TriggersBehindByChecksum(q, t, i, Pow2(j));
      RollingHash.ChecksumConcat(p, u);
      RollingHash.ChecksumConcat(q, u);
      if 0 < j <= 16 {
        RollingHash.SmallPowerDividesIff(p + u, j);
        RollingHash.SmallPowerDividesIff(q + u, j);
      } else if j > 16 {
        RollingHash.SuffixChecksumIff(p, q, u);
      }
    }
  }

  lemma FirstHalvesDiffer(p: seq<byte>, q: seq<byte>, t: seq<byte>)
    ensures RollingHash.A(p + t) == RollingHash.A(q + t) <==> RollingHash.A(p) == RollingHash.A(q)
  {
    hide RollingHash.Sum;
    RollingHash.ChecksumConcat(p, t);
    RollingHash.ChecksumConcat(q, t);
    RollingHash.SummandsDecide(RollingHash.A(p), RollingHash.A(q), RollingHash.A(t) - 1);
  }

  lemma FirstHalfMatters(p: seq<byte>, q: seq<byte>, j: nat) returns (t: seq<byte>)
    requires 0 < j <= 16 && RollingHash.A(p) != RollingHash.A(q)
    ensures t != []
    ensures RollingHash.Checksum(p + t) % Pow2(j) == 0 <==> RollingHash.Checksum(q + t) % Pow2(j) != 0
  {
    hide RollingHash.Sum, RollingHash.Checksum;
    PowerIsEven(j);
    var n := RollingHash.OnesSeparate(RollingHash.A(p), RollingHash.A(q), Pow2(j));
    t := Ones(n);
    RollingHash.OnesBehind(p, n);
    RollingHash.OnesBehind(q, n);
    RollingHash.SmallPowerDividesIff(p + t, j);
    RollingHash.SmallPowerDividesIff(q + t, j);
  }

  lemma PowerIsEven(j: nat)
    requires j > 0
    ensures Pow2(j) % 2 == 0
  {
    assert Pow2(j) == 2 * Pow2(j - 1);
  }

  lemma SecondHalfMatters(p: seq<byte>, q: seq<byte>, j: nat) returns (t: seq<byte>)
    requires j > 16 && RollingHash.A(p) == RollingHash.A(q) && RollingHash.B(p) != RollingHash.B(q)
    ensures t != []
    ensures RollingHash.Checksum(p + t) % Pow2(j) == 0 <==> RollingHash.Checksum(q + t) % Pow2(j) != 0
  {
    PowerIsEven(j - 16);
    hide RollingHash.A, RollingHash.B, RollingHash.Checksum, Pow2;
    t := RollingHash.SecondHalfSeparates(p, q, Pow2(j - 16));
    RollingHash.LargePowerDividesIff(p + t, j);
    RollingHash.LargePowerDividesIff(q + t, j);
  }

  lemma SuffixSeparates(p: seq<byte>, q: seq<byte>, t: seq<byte>, j: nat)
    requires |p| >= WINDOW_SIZE - 1 && |q| >= WINDOW_SIZE - 1 && t != []
    requires RollingHash.Checksum(p + t) % Pow2(j) == 0 <==> RollingHash.Checksum(q + t) % Pow2(j) != 0
    ensures !SameTriggersBehind(p, q, Pow2(j))
  {
    hide TriggersBehind, RollingHash.Checksum;
    var i := |t| - 1;
    assert t[..i + 1] == t;
    TriggersBehindByChecksum(p, t, i, Pow2(j));
    TriggersBehindByChecksum(q, t, i, Pow2(j));
  }

  /** An inserted byte keeps the trigger points of every suffix if and only if it is zero and, from
      2^17 on, the first half of the checksum in front of it is zero as well. */
  lemma InsertionKeepsTriggersIff(p: seq<byte>, x: byte, j: nat)
    requires |p| >= WINDOW_SIZE - 1
    ensures SameTriggersBehind(p, p + [x], Pow2(j)) <==>
            j == 0 || (x == 0 && (j <= 16 || RollingHash.A(p) == 0))
  {
    hide SameTriggersBehind, RollingHash.A, RollingHash.B, Pow2;
    SuffixTriggersIff(p, p + [x], j);
    RollingHash.OneMoreByteKeepsHalvesIff(p, x);
  }

  /** Behind six zero bytes, as many ones as make the first half 2^j trigger at 2^j, and no longer do
      so when one more one is inserted. */
  lemma InsertionLosesTrigger(j: nat)
    requires 1 <= j < 16
    ensures
      var t := Ones(Pow2(j) - 1);
      && TriggersBehind(Zeros(6), t, |t| - 1, Pow2(j))
      && !TriggersBehind(Zeros(6) + [1], t, |t| - 1, Pow2(j))
  {
    hide TriggersBehind, RollingHash.Checksum, RollingHash.A, RollingHash.B, Pow2;
    var p, n := Zeros(6), Pow2(j) - 1;
    PowerBelow16(j);
    OnesBehindSixZeros(n);
    RollingHash.SmallPowerDividesIff(p + Ones(n), j);
    RollingHash.SmallPowerDividesIff(p + [1] + Ones(n), j);
    RemainderIs(Pow2(j), Pow2(j), 1, 0);
    RemainderIs(Pow2(j) + 1, Pow2(j), 1, 1);
    assert Ones(n)[..n - 1 + 1] == Ones(n);
    TriggersBehindByChecksum(p, Ones(n), n - 1, Pow2(j));
    TriggersBehindByChecksum(p + [1], Ones(n), n - 1, Pow2(j));
  }

  lemma OnesBehindSixZeros(n: nat)
    requires n + 2 < RollingHash.MOD_ADLER
    ensures RollingHash.A(Zeros(6) + Ones(n)) == n + 1 && RollingHash.A(Zeros(6) + [1] + Ones(n)) == n + 2
  {
    hide RollingHash.A, RollingHash.B;
    RollingHash.ChecksumOfZeros(6);
    RollingHash.ChecksumStep(Zeros(6), 1);
    RollingHash.OnesBehind(Zeros(6), n);
    RollingHash.OnesBehind(Zeros(6) + [1], n);
  }

  lemma PowerBelow16(j: nat)
    requires 1 <= j < 16
    ensures 2 <= Pow2(j) <= 0x8000
  {
    assert Pow2(j) == 2 * Pow2(j - 1) && Pow2(16) == 2 * Pow2(15);
    WordPowers();
    hide Pow2;
    PowerOfSum(j, 15 - j);
    FactorIsSmaller(Pow2(j), Pow2(15 - j));
  }

  lemma FactorIsSmaller(x: nat, y: nat)
    requires y > 0
    ensures x <= x * y
  {
  }

  // ---------- Common characters behind different prefixes ----------

  /** The ends of the pieces in the first `n` bytes of a suffix, counted from its start. */
  function EndsBehind(p: seq<byte>, t: seq<byte>, n: nat, blockSize: nat): (ends: seq<nat>)
    requires n <= |t| && blockSize > 0
    ensures forall k :: 0 <= k < |ends| ==> 0 < ends[k] <= n
    ensures forall j, k :: 0 <= j < k < |ends| ==> ends[j] < ends[k]
  {
    if n == 0 then []
    else EndsBehind(p, t, n - 1, blockSize) + (if TriggersBehind(p, t, n - 1, blockSize) then [n] else [])
  }

  /** The trigger points are those of the prefix and then those of the suffix. */
  lemma {:induction false} TriggersSplit(p: seq<byte>, t: seq<byte>, n: nat, blockSize: nat)
    requires n <= |t| && blockSize > 0
    ensures
      var front, ends := Triggers(p, |p|, blockSize), EndsBehind(p, t, n, blockSize);
      && |Triggers(p + t, |p| + n, blockSize)| == |front| + |ends|
      && front <= Triggers(p + t, |p| + n, blockSize)
      && forall k :: 0 <= k < |ends| ==> Triggers(p + t, |p| + n, blockSize)[|front| + k] == |p| + ends[k]
  {
    if n == 0 {
      TriggersOfPrefix(p, t, |p|, blockSize);
    } else {
      hide IsTrigger;
      TriggersSplit(p, t, n - 1, blockSize);
    }
  }

  lemma {:induction false} SameEnds(p: seq<byte>, q: seq<byte>, t: seq<byte>, n: nat, blockSize: nat)
    requires n <= |t| && blockSize > 0 && SameTriggersBehind(p, q, blockSize)
    ensures EndsBehind(p, t, n, blockSize) == EndsBehind(q, t, n, blockSize)
  {
    if n == 0 {
    } else {
      hide TriggersBehind;
      SameEnds(p, q, t, n - 1, blockSize);
      assert TriggersBehind(p, t, n - 1, blockSize) <==> TriggersBehind(q, t, n - 1, blockSize);
    }
  }

  /** A character whose piece starts and ends in the suffix hashes bytes of the suffix only. */
  lemma CharacterBehind(p: seq<byte>, t: seq<byte>, k: nat, blockSize: nat)
    requires blockSize > 0
    ensures
      var front, ends := |Triggers(p, |p|, blockSize)|, EndsBehind(p, t, |t|, blockSize);
      0 < k < |ends| && front + k < MAX_TRIGGERS ==>
        && front + k < |Signature(p + t, blockSize)|
        && Signature(p + t, blockSize)[front + k] == Fnv.Digit(Fnv.Hash(t[ends[k - 1]..ends[k]]))
  {
    hide Triggers, EndsBehind, Cuts, Tail, TailDigits;
    var front, ends := |Triggers(p, |p|, blockSize)|, EndsBehind(p, t, |t|, blockSize);
    if 0 < k < |ends| && front + k < MAX_TRIGGERS {
      CutBehind(p, t, k - 1, blockSize);
      CutBehind(p, t, k, blockSize);
      SliceBehind(p, t, ends[k - 1], ends[k]);
      assert Piece(p + t, Cuts(p + t, blockSize), front + k) == t[ends[k - 1]..ends[k]];
    }
  }

  lemma CutBehind(p: seq<byte>, t: seq<byte>, k: nat, blockSize: nat)
    requires blockSize > 0
    ensures
      var front, ends := |Triggers(p, |p|, blockSize)|, EndsBehind(p, t, |t|, blockSize);
      k < |ends| && front + k < MAX_TRIGGERS ==>
        front + k < |Cuts(p + t, blockSize)| && Cuts(p + t, blockSize)[front + k] == |p| + ends[k]
  {
    hide Triggers, EndsBehind;
    TriggersSplit(p, t, |t|, blockSize);
  }

  lemma SliceBehind(p: seq<byte>, t: seq<byte>, i: nat, j: nat)
    requires i <= j <= |t|
    ensures (p + t)[|p| + i..|p| + j] == t[i..j]
  {
  }

  /** Where the trigger points come back, so do the characters: from the second trigger point behind
      the prefixes on, the two signatures are the same up to the cap. */
  lemma CommonSuffixGivesCommonDigits(p: seq<byte>, q: seq<byte>, t: seq<byte>, k: nat, blockSize: nat)
    requires blockSize > 0 && SameTriggersBehind(p, q, blockSize)
    requires 0 < k < |EndsBehind(p, t, |t|, blockSize)|
    ensures
      var i, j := |Triggers(p, |p|, blockSize)| + k, |Triggers(q, |q|, blockSize)| + k;
      i < MAX_TRIGGERS && j < MAX_TRIGGERS ==>
        && i < |Signature(p + t, blockSize)| && j < |Signature(q + t, blockSize)|
        && Signature(p + t, blockSize)[i] == Signature(q + t, blockSize)[j]
  {
    hide Signature, SameTriggersBehind;
    SameEnds(p, q, t, |t|, blockSize);
    CharacterBehind(p, t, k, blockSize);
    CharacterBehind(q, t, k, blockSize);
  }

  lemma TailBehind(p: seq<byte>, t: seq<byte>, blockSize: nat)
    requires blockSize > 0
    ensures
      var front, ends := |Triggers(p, |p|, blockSize)|, EndsBehind(p, t, |t|, blockSize);
      ends != [] && front + |ends| < MAX_TRIGGERS ==>
        && |Cuts(p + t, blockSize)| == front + |ends|
        && Tail(p + t, Cuts(p + t, blockSize)) == t[ends[|ends| - 1]..]
  {
    hide Triggers, EndsBehind;
    TriggersSplit(p, t, |t|, blockSize);
  }

  /** Below the cap this holds up to the end of the signatures, the tail character included. */
  lemma CommonSuffixGivesCommonEnd(p: seq<byte>, q: seq<byte>, t: seq<byte>, blockSize: nat)
    requires blockSize > 0 && SameTriggersBehind(p, q, blockSize) && EndsBehind(p, t, |t|, blockSize) != []
    requires |Triggers(p, |p|, blockSize)| + |EndsBehind(p, t, |t|, blockSize)| < MAX_TRIGGERS
    requires |Triggers(q, |q|, blockSize)| + |EndsBehind(q, t, |t|, blockSize)| < MAX_TRIGGERS
    ensures
      var i, j := |Triggers(p, |p|, blockSize)| + 1, |Triggers(q, |q|, blockSize)| + 1;
      && i <= |Signature(p + t, blockSize)| && j <= |Signature(q + t, blockSize)|
      && Signature(p + t, blockSize)[i..] == Signature(q + t, blockSize)[j..]
  {
    hide SameTriggersBehind, Triggers, EndsBehind, PieceDigits, Cuts, Tail, TailDigits;
    SameEnds(p, q, t, |t|, blockSize);
    TailBehind(p, t, blockSize);
    TailBehind(q, t, blockSize);
    var i, j := |Triggers(p, |p|, blockSize)|, |Triggers(q, |q|, blockSize)|;
    var x := PieceDigits(p + t, Cuts(p + t, blockSize));
    var y := PieceDigits(q + t, Cuts(q + t, blockSize));
    forall k | 0 < k < |x[i..]| ensures x[i..][k] == y[j..][k] {
      CommonSuffixGivesCommonDigits(p, q, t, k, blockSize);
    }
    SlicesAgree(x, y, i, j, TailDigits(Tail(p + t, Cuts(p + t, blockSize))));
  }

  lemma SlicesAgree(x: string, y: string, i: nat, j: nat, tail: string)
    requires i < |x| && j < |y| && |x| - i == |y| - j
    requires forall k :: 0 < k < |x[i..]| ==> x[i..][k] == y[j..][k]
    ensures (x + tail)[i + 1..] == (y + tail)[j + 1..]
  {
    assert x[i..][1..] == y[j..][1..];
    assert (x + tail)[i + 1..] == x[i..][1..] + tail;
    assert (y + tail)[j + 1..] == y[j..][1..] + tail;
  }

  // ---------- The block size ----------

  lemma DividesTransitive(x: nat, m: nat, r: nat)
    requires m > 0 && r > 0
    ensures x % (m * r) == 0 ==> x % m == 0
  {
    if x % (m * r) == 0 {
      var q := x / (m * r);
      assert x == (m * r) * q;
      assert x == m * (r * q);
      RemainderIs(x, m, r * q, 0);
    }
  }

  /** A multiple of the block size has no further trigger points. */
  lemma CoarserTriggersAreTriggers(s: seq<byte>, i: nat, blockSize: nat, factor: nat)
    requires i < |s| && blockSize > 0 && factor > 0 && blockSize * factor > 0
    ensures IsTrigger(s, i, blockSize * factor) ==> IsTrigger(s, i, blockSize)
  {
    DividesTransitive(RollingHash.Checksum(s[..i + 1]), blockSize, factor);
  }

  lemma {:induction false} CoarserHasFewerTriggers(s: seq<byte>, n: nat, blockSize: nat, factor: nat)
    requires n <= |s| && blockSize > 0 && factor > 0 && blockSize * factor > 0
    ensures
      var fine, coarse := Triggers(s, n, blockSize), Triggers(s, n, blockSize * factor);
      |coarse| <= |fine| && (|coarse| == |fine| ==> coarse == fine)
  {
    if n == 0 {
    } else {
      CoarserHasFewerTriggers(s, n - 1, blockSize, factor);
      CoarserTriggersAreTriggers(s, n - 1, blockSize, factor);
    }
  }

  /** From 2^32 on all block sizes have the same trigger points, those with checksum zero. */
  lemma {:induction false} HugeBlocksTriggerAlike(s: seq<byte>, n: nat, j: nat)
    requires n <= |s| && j >= 32
    ensures Triggers(s, n, Pow2(j)) == Triggers(s, n, Pow2(32))
  {
    if n == 0 {
    } else {
      hide RollingHash.Checksum, Pow2;
      HugeBlocksTriggerAlike(s, n - 1, j);
      RollingHash.HugePowerDividesIff(s[..n], j);
      RollingHash.HugePowerDividesIff(s[..n], 32);
    }
  }

  lemma HugeBlocksSignAlike(s: seq<byte>, j: nat)
    requires j >= 32
    ensures Signature(s, Pow2(j)) == Signature(s, Pow2(32))
  {
    hide Triggers, PieceDigits, Tail, Pow2;
    HugeBlocksTriggerAlike(s, |s|, j);
  }

  /** The cap and the optional tail character included, a finer block size never shortens the signature. */
  lemma FinerSignatureIsNotShorter(s: seq<byte>, blockSize: nat, factor: nat)
    requires blockSize > 0 && factor > 0 && blockSize * factor > 0
    ensures |Signature(s, blockSize * factor)| <= |Signature(s, blockSize)|
  {
    CoarserHasFewerTriggers(s, |s|, blockSize, factor);
  }

  lemma {:induction false} EveryWarmByteTriggersAtOne(s: seq<byte>, n: nat)
    requires n <= |s|
    ensures
      var t := Triggers(s, n, 1);
      && |t| == (if n < 7 then 0 else n - 6)
      && (t != [] ==> t[|t| - 1] == n)
  {
    hide RollingHash.Checksum;
    if n == 0 {
    } else {
      EveryWarmByteTriggersAtOne(s, n - 1);
    }
  }

  /** The length at block size 1: the last byte triggers, so that there is no tail. */
  lemma SignatureLengthAtOne(s: seq<byte>)
    ensures |s| >= 7 ==> |Signature(s, 1)| == Min(63, |s| - 6)
    ensures |s| < 7 ==> |Signature(s, 1)| <= 1
  {
    EveryWarmByteTriggersAtOne(s, |s|);
    if WINDOW_SIZE <= |s| < MAX_TRIGGERS + WINDOW_SIZE {
      assert Cuts(s, 1) == Triggers(s, |s|, 1);
      assert Tail(s, Cuts(s, 1)) == [];
    }
  }

  /** Seven zero bytes at block size 1: one piece, whose hash is 39 modulo 64. */
  lemma SevenZerosSignAsN()
    ensures Signature(Zeros(7), 1) == "n"
  {
    hide Signature, Cuts, Fnv.Hash, Fnv.Digit, Zeros;
    Fnv.SevenZerosGiveN();
    OneCutOfSevenZeros();
    SignatureLengthAtOne(Zeros(7));
    CharacterHashesPiece(Zeros(7), 1, 0);
    assert Zeros(7)[0..7] == Zeros(7);
  }

  lemma OneCutOfSevenZeros()
    ensures |Zeros(7)| == 7 && Cuts(Zeros(7), 1) == [7]
  {
    hide Triggers;
    EveryWarmByteTriggersAtOne(Zeros(7), 7);
  }

  lemma SignatureWithoutTriggers(s: seq<byte>, blockSize: nat)
    requires blockSize > 0 && Triggers(s, |s|, blockSize) == []
    ensures |Signature(s, blockSize)| <= 1
  {
  }

  /** The only way to an empty signature: no trigger point, and a stream whose hash is the offset basis. */
  lemma EmptySignature(s: seq<byte>, blockSize: nat)
    requires blockSize > 0
    ensures Signature(s, blockSize) == [] <==>
            Triggers(s, |s|, blockSize) == [] && Fnv.Hash(s) == Fnv.FNV_OFFSET_BASIS
  {
    assert s[0..] == s;
  }
}
