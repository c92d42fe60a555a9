/** What a change in the middle of a stream does to its signature (src/ctph.c), and to the score of
    the two signatures. */
module Locality {
  import opened Words
  import Compare
  import EditDistance
  import Engine
  import RollingHash

  /** The number of trigger points of a stream. */
  function Count(s: seq<byte>, blockSize: nat): nat
    requires blockSize > 0
  {
    |Engine.Triggers(s, |s|, blockSize)|
  }

  lemma CountGrows(s: seq<byte>, x: seq<byte>, blockSize: nat)
    requires blockSize > 0
    ensures Count(s, blockSize) <= Count(s + x, blockSize)
  {
    Engine.TriggersOfPrefix(s, x, |s|, blockSize);
    Engine.TriggersExtend(s + x, |s|, |s + x|, blockSize);
  }

  /** Replacing `x` by `y` between `u` and `t` leaves the trigger points in `t` where they were, there
      are some, and neither signature is full. */
  ghost predicate Resumes(u: seq<byte>, x: seq<byte>, y: seq<byte>, t: seq<byte>, blockSize: nat) {
    && blockSize > 0
    && Engine.SameTriggersBehind(u + x, u + y, blockSize)
    && Engine.EndsBehind(u + x, t, |t|, blockSize) != []
    && Count(u + x + t, blockSize) < Engine.MAX_TRIGGERS
    && Count(u + y + t, blockSize) < Engine.MAX_TRIGGERS
  }

  /** How many characters of the signature a middle part has a say in: one for each trigger point in
      it, and one for the piece that goes on behind it. */
  function Touched(u: seq<byte>, x: seq<byte>, blockSize: nat): (n: nat)
    requires blockSize > 0
  {
    CountGrows(u, x, blockSize);
    Count(u + x, blockSize) - Count(u, blockSize) + 1
  }

  lemma FrontIsKept(u: seq<byte>, x: seq<byte>, t: seq<byte>, blockSize: nat)
    requires blockSize > 0 && Count(u + x + t, blockSize) < Engine.MAX_TRIGGERS
    ensures Engine.PieceDigits(u, Engine.Cuts(u, blockSize)) <= Engine.Signature(u + x + t, blockSize)
    ensures |Engine.PieceDigits(u, Engine.Cuts(u, blockSize))| == Count(u, blockSize)
  {
    CountGrows(u, x, blockSize);
    CountGrows(u + x, t, blockSize);
    hide Engine.PieceDigits, Engine.Signature;
    Engine.PrefixDigits(u, x + t, blockSize);
    assert u + (x + t) == u + x + t;
  }

  lemma BackIsKept(u: seq<byte>, x: seq<byte>, y: seq<byte>, t: seq<byte>, blockSize: nat)
    requires Resumes(u, x, y, t, blockSize)
    ensures
      var before, after := Engine.Signature(u + x + t, blockSize), Engine.Signature(u + y + t, blockSize);
      var i, j := Count(u + x, blockSize) + 1, Count(u + y, blockSize) + 1;
      i <= |before| && j <= |after| && before[i..] == after[j..]
  {
    hide Engine.SameTriggersBehind, Engine.Signature, Engine.EndsBehind, Engine.Triggers;
    var p, q := u + x, u + y;
    Engine.TriggersSplit(p, t, |t|, blockSize);
    Engine.TriggersSplit(q, t, |t|, blockSize);
    Engine.CommonSuffixGivesCommonEnd(p, q, t, blockSize);
  }

  /** The two signatures have everything but the touched characters in common. */
  lemma ChangeIsLocal(u: seq<byte>, x: seq<byte>, y: seq<byte>, t: seq<byte>, blockSize: nat)
    returns (front: string, before: string, after: string, back: string)
    requires Resumes(u, x, y, t, blockSize)
    ensures Engine.Signature(u + x + t, blockSize) == front + before + back
    ensures Engine.Signature(u + y + t, blockSize) == front + after + back
    ensures |before| == Touched(u, x, blockSize) && |after| == Touched(u, y, blockSize)
  {
    hide Engine.Signature, Engine.PieceDigits, Engine.Cuts;
    FrontIsKept(u, x, t, blockSize);
    FrontIsKept(u, y, t, blockSize);
    BackIsKept(u, x, y, t, blockSize);
    CountGrows(u, x, blockSize);
    CountGrows(u, y, blockSize);
    hide Count, Resumes;
    front := Engine.PieceDigits(u, Engine.Cuts(u, blockSize));
    var s1, s2 := Engine.Signature(u + x + t, blockSize), Engine.Signature(u + y + t, blockSize);
    var n, i, j := Count(u, blockSize), Count(u + x, blockSize) + 1, Count(u + y, blockSize) + 1;
    before, after, back := s1[n..i], s2[n..j], s1[i..];
    Reassembled(s1, front, i);
    Reassembled(s2, front, j);
  }

  lemma Reassembled(s: string, front: string, i: nat)
    requires front <= s && |front| <= i <= |s|
    ensures front + s[|front|..i] + s[i..] == s
  {
  }

  /** The edit distance of the signatures does not depend on how much there is in front of the change
      and behind it. */
  lemma ChangeBoundsDistance(u: seq<byte>, x: seq<byte>, y: seq<byte>, t: seq<byte>, blockSize: nat)
    requires Resumes(u, x, y, t, blockSize)
    ensures EditDistance.Distance(Engine.Signature(u + x + t, blockSize), Engine.Signature(u + y + t, blockSize))
            <= Touched(u, x, blockSize) + Touched(u, y, blockSize)
  {
    hide Resumes, Touched, Engine.Signature, EditDistance.Distance;
    var front, before, after, back := ChangeIsLocal(u, x, y, t, blockSize);
    EditDistance.CommonEndsBoundDistance(front, before, after, back);
  }

  /** So the score of the two signatures is at least what that distance scores for block sizes below
      45, and at most that from 45 on. */
  lemma ChangeBoundsScore(u: seq<byte>, x: seq<byte>, y: seq<byte>, t: seq<byte>, blockSize: nat)
    requires Resumes(u, x, y, t, blockSize)
    ensures
      var s1, s2 := Engine.Signature(u + x + t, blockSize), Engine.Signature(u + y + t, blockSize);
      var most := Touched(u, x, blockSize) + Touched(u, y, blockSize);
      && s1 != [] && s2 != [] && Compare.ScorePieces(s1, s2, blockSize).Score?
      && var bound := Compare.ScoreOf(most, |s1|, |s2|, blockSize);
         if blockSize < 45 then Compare.ScorePieces(s1, s2, blockSize).value >= bound
         else Compare.ScorePieces(s1, s2, blockSize).value <= bound
  {
    hide Engine.Signature, Compare.ScoreOf, EditDistance.Distance;
    BackIsKept(u, x, y, t, blockSize);
    ChangeBoundsDistance(u, x, y, t, blockSize);
    hide Resumes, Touched;
    var s1, s2 := Engine.Signature(u + x + t, blockSize), Engine.Signature(u + y + t, blockSize);
    Compare.SmallerDistanceScores(EditDistance.Distance(s1, s2),
                                  Touched(u, x, blockSize) + Touched(u, y, blockSize), |s1|, |s2|, blockSize);
  }

  /** Up to block size 2^16, what was replaced alone decides whether the trigger points behind it stay:
      the sums of the bytes have to agree modulo 65521. */
  lemma EqualSumsKeepTriggersIff(u: seq<byte>, x: seq<byte>, y: seq<byte>, j: nat)
    requires |u| >= Engine.WINDOW_SIZE - 1 && 1 <= j <= 16
    ensures Engine.SameTriggersBehind(u + x, u + y, Pow2(j)) <==>
            RollingHash.Sum(x) % RollingHash.MOD_ADLER == RollingHash.Sum(y) % RollingHash.MOD_ADLER
  {
    hide Engine.SameTriggersBehind, Pow2;
    Engine.SuffixTriggersIff(u + x, u + y, j);
    RollingHash.SumConcat(u, x);
    RollingHash.SumConcat(u, y);
    hide RollingHash.Sum;
    SumsAgree(1 + RollingHash.Sum(u), RollingHash.Sum(x), RollingHash.Sum(y));
  }

  lemma SumsAgree(z: nat, x: nat, y: nat)
    ensures (z + x) % RollingHash.MOD_ADLER == (z + y) % RollingHash.MOD_ADLER <==>
            x % RollingHash.MOD_ADLER == y % RollingHash.MOD_ADLER
  {
  }
}
