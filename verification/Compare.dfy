/** Comparison of two printed hashes, from src/ctph.c (`score_strings`, `ctph_compare`). */
module Compare {
  import opened Words
  import BlockSearch
  import Decimal
  import EditDistance
  import Engine
  import Fnv
  import Runs

  const MIN_BLOCK_SIZE := 3

  /** From this block size on the score is returned as it is; 45 in numbers. */
  const LARGE_BLOCK_SIZE := (99 + Engine.WINDOW_SIZE) / Engine.WINDOW_SIZE * MIN_BLOCK_SIZE

  // ---------- Scoring two pieces ----------

  datatype Score = Score(value: nat) | DivisionByZero

  /** The share of the two pieces that an edit distance stands for, first in 64ths and then in percent. */
  function Share(distance: nat, length: nat): nat
    requires length > 0
  {
    100 * (distance * Engine.SIGN_LENGTH / length) / Engine.SIGN_LENGTH
  }

  /** The small-block cap limits what is subtracted. */
  function ScoreOf(distance: nat, len1: nat, len2: nat, blockSize: nat): int
    requires len1 + len2 > 0
  {
    var share := Share(distance, len1 + len2);
    if blockSize >= LARGE_BLOCK_SIZE then share
    else 100 - Min(share, blockSize / MIN_BLOCK_SIZE * Min(len1, len2))
  }

  lemma {:induction false} ShareOfWhole(length: nat)
    requires length > 0
    ensures Share(length, length) == 100 && Share(0, length) == 0
  {
    RemainderIs(length * Engine.SIGN_LENGTH, length, Engine.SIGN_LENGTH, 0);
    RemainderIs(0, length, 0, 0);
  }

  lemma QuotientMonotone(x: nat, y: nat, d: nat)
    requires x <= y && d > 0
    ensures x / d <= y / d
  {
    Factored(d, x / d, y / d);
    PositiveMultiple(d, x / d - y / d);
    assert x == d * (x / d) + x % d && y == d * (y / d) + y % d;
  }

  lemma PositiveMultiple(d: nat, k: int)
    ensures k >= 1 ==> d * k >= d
  {
  }

  lemma ShareMonotone(distance: nat, more: nat, length: nat)
    requires distance <= more && length > 0
    ensures Share(distance, length) <= Share(more, length)
  {
    QuotientMonotone(distance * Engine.SIGN_LENGTH, more * Engine.SIGN_LENGTH, length);
  }

  /** The share is the percentage that the distance is of the length, rounded down by less than three. */
  lemma ShareIsPercentage(distance: nat, length: nat)
    requires length > 0
    ensures Share(distance, length) * length <= 100 * distance < (Share(distance, length) + 3) * length
  {
    var q, r := distance * Engine.SIGN_LENGTH / length, distance * Engine.SIGN_LENGTH % length;
    var share := 100 * q / Engine.SIGN_LENGTH;
    var rest := 100 * q % Engine.SIGN_LENGTH;
    assert distance * Engine.SIGN_LENGTH == length * q + r;
    assert 100 * q == Engine.SIGN_LENGTH * share + rest;
    RoundedTwice(distance, length, q, r, share, rest);
  }

  lemma RoundedTwice(distance: nat, length: nat, q: nat, r: nat, share: nat, rest: nat)
    requires 64 * distance == length * q + r && r < length
    requires 100 * q == 64 * share + rest && rest < 64
    ensures share * length <= 100 * distance < (share + 3) * length
  {
    Scaled(length, q, share, rest);
    RestIsSmall(rest, length);
    assert (share + 3) * length == share * length + 3 * length;
  }

  lemma Scaled(length: nat, q: nat, share: nat, rest: nat)
    requires 100 * q == 64 * share + rest
    ensures 100 * (length * q) == 64 * (share * length) + rest * length
  {
    assert 100 * (length * q) == length * (100 * q);
    assert length * (64 * share + rest) == 64 * (share * length) + rest * length;
  }

  lemma RestIsSmall(rest: nat, length: nat)
    requires rest < 64
    ensures 0 <= rest * length <= 63 * length
  {
    assert (63 - rest) * length >= 0;
  }

  /** The comment on the small-block rule says that it keeps small messages from exaggerating a
      match. It limits what is subtracted: the score is what the share alone would give if and only
      if the share is within the limit, and higher otherwise. */
  lemma SmallBlockRuleRaisesScore(distance: nat, len1: nat, len2: nat, blockSize: nat)
    requires len1 + len2 > 0 && blockSize < 45
    ensures
      var share, limit := Share(distance, len1 + len2), blockSize / 3 * Min(len1, len2);
      && (ScoreOf(distance, len1, len2, blockSize) == 100 - share <==> share <= limit)
      && ScoreOf(distance, len1, len2, blockSize) >= 100 - share
      && ScoreOf(distance, len1, len2, blockSize) >= 100 - limit
  {
    hide Share;
  }

  lemma ScoreRange(distance: nat, len1: nat, len2: nat, blockSize: nat)
    requires len1 + len2 > 0 && distance <= len1 + len2
    ensures 0 <= ScoreOf(distance, len1, len2, blockSize) <= 100
  {
    ShareMonotone(distance, len1 + len2, len1 + len2);
    ShareOfWhole(len1 + len2);
  }

  /** The comment on `score_strings` promises 100 for a great match and 0 for a terrible one.
      Below block size 45 a smaller distance never scores less; from 45 on it never scores more. */
  lemma SmallerDistanceScores(distance: nat, more: nat, len1: nat, len2: nat, blockSize: nat)
    requires distance <= more && len1 + len2 > 0
    ensures blockSize < 45 ==>
              ScoreOf(distance, len1, len2, blockSize) >= ScoreOf(more, len1, len2, blockSize)
    ensures blockSize >= 45 ==>
              ScoreOf(distance, len1, len2, blockSize) <= ScoreOf(more, len1, len2, blockSize)
  {
    ShareMonotone(distance, more, len1 + len2);
  }

  function ScorePieces(s1: string, s2: string, blockSize: nat): (r: Score)
    ensures r == DivisionByZero <==> s1 == [] && s2 == []
    ensures r.Score? ==> r.value <= 100
  {
    if s1 == [] && s2 == [] then DivisionByZero
    else
      var d := EditDistance.Distance(s1, s2);
      EditDistance.DistanceRange(s1, s2);
      ScoreRange(d, |s1|, |s2|, blockSize);
      Score(ScoreOf(d, |s1|, |s2|, blockSize))
  }

  lemma ScorePiecesSymmetric(s1: string, s2: string, blockSize: nat)
    ensures ScorePieces(s1, s2, blockSize) == ScorePieces(s2, s1, blockSize)
  {
    EditDistance.DistanceSymmetric(s1, s2);
  }

  /** Pieces without a common character, the worst match there is, score 100 from block size 45 on.
      Below, they score as much as the small-block rule leaves. */
  lemma DisjointPiecesScore(s1: string, s2: string, blockSize: nat)
    requires s1 != [] && s2 != [] && forall c :: c in s1 ==> c !in s2
    ensures ScorePieces(s1, s2, blockSize) ==
            Score(if blockSize >= 45 then 100
                  else 100 - Min(100, blockSize / 3 * Min(|s1|, |s2|)))
  {
    hide Share, EditDistance.Distance;
    EditDistance.NothingInCommon(s1, s2);
    ShareOfWhole(|s1| + |s2|);
  }

  /** The share is rounded down twice: a third is 21 of 64, and 32 percent. */
  lemma OneOfThreeScores32()
    ensures ScorePieces("AB", "A", 64) == Score(32)
  {
    EditDistance.DistanceStep("AB", "A");
    EditDistance.NothingInCommon("AB", "");
    EditDistance.DistanceZeroIffEqual("A", "A");
    EditDistance.NothingInCommon("A", "");
    assert Init("AB") == "A" && Init("A") == "";
  }

  lemma ShortDisjointPiecesScore95()
    ensures ScorePieces("ABCDE", "FGHIJ", 3) == Score(95)
  {
    hide ScorePieces;
    DisjointPiecesScore("ABCDE", "FGHIJ", 3);
  }

  /** Equal pieces, the best match there is, score 100 exactly below block size 45, and 0 from there on. */
  lemma EqualPiecesScore100Iff(s: string, blockSize: nat)
    requires s != []
    ensures ScorePieces(s, s, blockSize) == Score(100) <==> blockSize < 45
    ensures blockSize >= 45 ==> ScorePieces(s, s, blockSize) == Score(0)
  {
    hide Share, EditDistance.Distance;
    EditDistance.DistanceZeroIffEqual(s, s);
    ShareOfWhole(|s| + |s|);
  }

  method ScoreStrings(s1: string, s2: string, blockSize: nat) returns (r: Score)
    requires |s2| <= EditDistance.EDIT_DISTN_MAXLEN
    ensures r == ScorePieces(s1, s2, blockSize)
  {
    hide EditDistance.Distance;
    var score := EditDistance.EditDistn(s1, s2);
    if |s1| + |s2| == 0 {
      return DivisionByZero;
    }
    EditDistance.DistanceRange(s1, s2);
    ScoreRange(score, |s1|, |s2|, blockSize);
    score := score * Engine.SIGN_LENGTH / (|s1| + |s2|);
    score := 100 * score / Engine.SIGN_LENGTH;
    if blockSize >= (99 + Engine.WINDOW_SIZE) / Engine.WINDOW_SIZE * MIN_BLOCK_SIZE {
      return Score(score);
    }
    if score > blockSize / MIN_BLOCK_SIZE * Min(|s1|, |s2|) {
      score := blockSize / MIN_BLOCK_SIZE * Min(|s1|, |s2|);
    }
    return Score(100 - score);
  }

  // ---------- Reading a hash ----------

  /** `<block size>:<first>:<second>`, the pieces with their runs capped. */
  datatype Signature = Signature(block: nat, first: string, second: string)

  /** The two pieces behind the first colon; none if there is no first or second colon, or if a
      capped piece is longer than 64 characters. */
  function Pieces(s: CString): Option<(string, string)> {
    var colon := Runs.FieldEnd(s, 0, ':');
    if colon == |s| then None
    else
      var end := Runs.FieldEnd(s, colon + 1, ':');
      var first := Runs.Cap(s[colon + 1..end]);
      if |first| > Engine.SIGN_LENGTH || end == |s| then None
      else
        var second := Runs.Cap(s[end + 1..Runs.FieldEnd(s, end + 1, ',')]);
        if |second| > Engine.SIGN_LENGTH then None else Some((first, second))
  }

  function Parse(s: CString): Option<Signature> {
    var block, pieces := Decimal.Scan(s), Pieces(s);
    if block.None? || pieces.None? then None
    else Some(Signature(block.value, pieces.value.0, pieces.value.1))
  }

  /** `strchr(s, ':')` and the two calls that copy the pieces. */
  method ReadPieces(s: CString) returns (r: Option<(string, string)>)
    ensures r == Pieces(s)
    ensures r.Some? ==> |r.value.0| <= Engine.SIGN_LENGTH && |r.value.1| <= Engine.SIGN_LENGTH
  {
    hide Runs.Cap;
    var p := Runs.FieldEnd(s, 0, ':');
    if p == |s| {
      return None;
    }
    p := p + 1;
    var b1 := new char[Engine.SIGN_LENGTH];
    var ok, end1, p1 := Runs.CopyEliminateSequences(b1, 0, Engine.SIGN_LENGTH, s, p, ':');
    if !ok {
      return None;
    }
    if CharAt(s, p1) == '\0' {
      return None;
    }
    p := p1 + 1;
    var b2 := new char[Engine.SIGN_LENGTH];
    var end2;
    ok, end2, p1 := Runs.CopyEliminateSequences(b2, 0, Engine.SIGN_LENGTH, s, p, ',');
    if !ok {
      return None;
    }
    return Some((b1[..end1], b2[..end2]));
  }

  // ---------- Comparing two hashes ----------

  datatype Verdict = Value(score: int) | Undefined

  predicate IsPercentage(v: Verdict) {
    v.Value? && 0 <= v.score <= 100
  }

  /** Two block sizes can be compared when they are equal or one is the double of the other. */
  predicate Comparable(b1: nat, b2: nat) {
    b1 == b2 || b2 == 2 * b1 || b1 == 2 * b2
  }

  function ToVerdict(score: Score): Verdict {
    if score.Score? then Value(score.value) else Undefined
  }

  function Best(score1: Score, score2: Score): Verdict {
    if score1 == DivisionByZero || score2 == DivisionByZero then Undefined
    else if score1.value > score2.value then Value(score1.value)
    else Value(score2.value)
  }

  /** Pieces are compared where they were made with the same block size. */
  function Match(x: Signature, y: Signature): Verdict
    requires Comparable(x.block, y.block)
  {
    if x == y then Value(100)
    else if x.block == y.block then
      if 2 * x.block > ULONG_MAX then ToVerdict(ScorePieces(x.first, y.first, x.block))
      else Best(ScorePieces(x.first, y.first, x.block), ScorePieces(x.second, y.second, 2 * x.block))
    else if y.block == 2 * x.block then ToVerdict(ScorePieces(y.first, x.second, y.block))
    else ToVerdict(ScorePieces(x.first, y.second, x.block))
  }

  function Comparison(str1: CString, str2: CString): Verdict {
    var b1, b2 := Decimal.Scan(str1), Decimal.Scan(str2);
    if b1.None? || b2.None? then Value(-1)
    else if !Comparable(b1.value, b2.value) then Value(0)
    else if Parse(str1).None? || Parse(str2).None? then Value(-1)
    else Match(Parse(str1).value, Parse(str2).value)
  }

  method CtphCompare(str1: CString, str2: CString) returns (r: Verdict)
    ensures r == Comparison(str1, str2)
  {
    hide Decimal.Scan, Pieces;
    var scan1, scan2 := Decimal.Scan(str1), Decimal.Scan(str2);
    if scan1.None? || scan2.None? {
      return Value(-1);
    }
    var blockSize1, blockSize2 := scan1.value, scan2.value;
    if blockSize1 != blockSize2 &&
      (blockSize1 > ULONG_MAX / 2 || blockSize1 * 2 != blockSize2) &&
      (blockSize1 % 2 == 1 || blockSize1 / 2 != blockSize2) {
      return Value(0);
    }
    var pieces1 := ReadPieces(str1);
    if pieces1.None? {
      return Value(-1);
    }
    var pieces2 := ReadPieces(str2);
    if pieces2.None? {
      return Value(-1);
    }
    r := CompareSignatures(Signature(blockSize1, pieces1.value.0, pieces1.value.1),
                           Signature(blockSize2, pieces2.value.0, pieces2.value.1));
  }

  /** From the point on where both hashes are known to be well formed. */
  method CompareSignatures(x: Signature, y: Signature) returns (r: Verdict)
    requires Comparable(x.block, y.block) && x.block <= ULONG_MAX && y.block <= ULONG_MAX
    requires |x.first| <= Engine.SIGN_LENGTH && |x.second| <= Engine.SIGN_LENGTH
    requires |y.first| <= Engine.SIGN_LENGTH && |y.second| <= Engine.SIGN_LENGTH
    ensures r == Match(x, y)
  {
    hide ScorePieces;
    if x.block == y.block && |x.first| == |y.first| && |x.second| == |y.second| {
      if x.first == y.first && x.second == y.second {
        return Value(100);
      }
    }
    var score := Score(0);
    if x.block <= ULONG_MAX / 2 {
      if x.block == y.block {
        var score1 := ScoreStrings(x.first, y.first, x.block);
        if score1 == DivisionByZero {
          return Undefined;
        }
        var score2 := ScoreStrings(x.second, y.second, x.block * 2);
        if score2 == DivisionByZero {
          return Undefined;
        }
        score := if score1.value > score2.value then score1 else score2;
      } else if x.block * 2 == y.block {
        score := ScoreStrings(y.first, x.second, y.block);
      } else {
        score := ScoreStrings(x.first, y.second, x.block);
      }
    } else {
      if x.block == y.block {
        score := ScoreStrings(x.first, y.first, x.block);
      } else if x.block % 2 == 0 && x.block / 2 == y.block {
        score := ScoreStrings(x.first, y.second, x.block);
      } // comparable block sizes leave no other case, in which the score would stay 0
    }
    r := ToVerdict(score);
  }

  // ---------- What a comparison says ----------

  lemma ComparisonSymmetric(str1: CString, str2: CString)
    ensures Comparison(str1, str2) == Comparison(str2, str1)
  {
    hide Decimal.Scan, Pieces, Match;
    if Parse(str1).Some? && Parse(str2).Some? && Comparable(Parse(str1).value.block, Parse(str2).value.block) {
      MatchSymmetric(Parse(str1).value, Parse(str2).value);
    }
  }

  lemma MatchSymmetric(x: Signature, y: Signature)
    requires Comparable(x.block, y.block)
    ensures Match(x, y) == Match(y, x)
  {
    hide ScorePieces;
    ScorePiecesSymmetric(x.first, y.first, x.block);
    ScorePiecesSymmetric(x.second, y.second, 2 * x.block);
  }

  /** Block sizes of which neither is the other nor the double of the other score 0, before the
      texts are looked at any further. */
  lemma IncomparableScoreZero(str1: CString, str2: CString)
    requires Decimal.Scan(str1).Some? && Decimal.Scan(str2).Some?
    ensures
      var b1, b2 := Decimal.Scan(str1).value, Decimal.Scan(str2).value;
      b1 != b2 && b1 != 2 * b2 && b2 != 2 * b1 ==> Comparison(str1, str2) == Value(0)
  {
    hide Decimal.Scan, Pieces;
  }

  /** The comparison is -1 exactly if a text has no number, or a text is malformed and the block
      sizes can be compared. */
  lemma RejectedIff(str1: CString, str2: CString)
    ensures Comparison(str1, str2) == Value(-1) <==>
            || Decimal.Scan(str1).None? || Decimal.Scan(str2).None?
            || (var b1, b2 := Decimal.Scan(str1).value, Decimal.Scan(str2).value;
                && (b1 == b2 || b1 == 2 * b2 || b2 == 2 * b1)
                && (Pieces(str1).None? || Pieces(str2).None?))
  {
    hide Decimal.Scan, Pieces, ScoreOf;
  }

  /** A defined comparison is -1 or a percentage. */
  lemma ComparisonRange(str1: CString, str2: CString)
    ensures Comparison(str1, str2).Value? ==>
              Comparison(str1, str2).score == -1 || 0 <= Comparison(str1, str2).score <= 100
  {
    hide Decimal.Scan, Pieces, ScoreOf;
  }

  /** A hash compared with itself scores 100 if it is well formed, and -1 otherwise. */
  lemma ComparisonWithItself(str: CString)
    ensures Comparison(str, str) == Value(if Parse(str).Some? then 100 else -1)
  {
    hide Decimal.Scan, Pieces;
  }

  /** The comparison divides by zero exactly for two different well-formed hashes of comparable
      block sizes that compare a pair of empty pieces. */
  lemma UndefinedIff(str1: CString, str2: CString)
    ensures Comparison(str1, str2) == Undefined <==>
            && Parse(str1).Some? && Parse(str2).Some? && Parse(str1) != Parse(str2)
            && var x, y := Parse(str1).value, Parse(str2).value;
               if x.block == y.block then
                 (x.first == [] && y.first == []) ||
                 (2 * x.block <= ULONG_MAX && x.second == [] && y.second == [])
               else if y.block == 2 * x.block then y.first == [] && x.second == []
               else x.block == 2 * y.block && x.first == [] && y.second == []
  {
    hide Decimal.Scan, Pieces, ScoreOf;
  }

  // ---------- Hashes that were printed ----------

  predicate Base64(s: string) {
    forall k :: 0 <= k < |s| ==> Fnv.IsBase64(s[k])
  }

  lemma Base64HasNoDelimiter(s: string)
    requires Base64(s)
    ensures ':' !in s && ',' !in s && '\0' !in s
  {
  }

  lemma {:induction false} FieldEndAt(s: CString, i: nat, end: nat, etoken: char)
    requires i <= end <= |s| && etoken !in s[i..end] && (end < |s| ==> s[end] == etoken)
    ensures Runs.FieldEnd(s, i, etoken) == end
    decreases end - i
  {
    if i == end {
    } else {
      assert s[i] == s[i..end][0] && s[i + 1..end] == s[i..end][1..];
      FieldEndAt(s, i + 1, end, etoken);
    }
  }

  /** A text is read back whatever follows a comma, and rejected exactly if a capped piece is longer
      than 64 characters. */
  lemma ParseOfText(block: nat, fine: string, coarse: string, tail: string)
    requires block <= ULONG_MAX && '\0' !in fine && '\0' !in coarse && '\0' !in tail
    requires ':' !in fine && ',' !in coarse && (tail == [] || tail[0] == ',')
    ensures '\0' !in BlockSearch.Text(block, fine, coarse) + tail
    ensures Parse(BlockSearch.Text(block, fine, coarse) + tail) ==
            if |Runs.Cap(fine)| <= 64 && |Runs.Cap(coarse)| <= 64
            then Some(Signature(block, Runs.Cap(fine), Runs.Cap(coarse)))
            else None
  {
    hide Decimal.Print, Decimal.Scan, Pieces;
    ScanOfText(block, fine, coarse, tail);
    Decimal.PrintIsDigits(block);
    NumberHasNoDelimiter(Decimal.Print(block));
    PiecesOfText(Decimal.Print(block), fine, coarse, tail);
  }

  lemma ScanOfText(block: nat, fine: string, coarse: string, tail: string)
    requires block <= ULONG_MAX
    ensures Decimal.Scan(BlockSearch.Text(block, fine, coarse) + tail) == Some(block)
  {
    hide Decimal.Print, Decimal.Scan;
    var rest := ":" + fine + ":" + coarse + tail;
    assert BlockSearch.Text(block, fine, coarse) + tail == Decimal.Print(block) + rest;
    Decimal.ScanUndoesPrint(block, rest);
  }

  /** Two colons are needed. */
  lemma PiecesNeedTwoColons(front: string, back: string)
    requires ':' !in front && ':' !in back && '\0' !in front && '\0' !in back
    ensures Pieces(front) == None
    ensures '\0' !in front + ":" + back && Pieces(front + ":" + back) == None
  {
    hide Runs.Cap, Runs.FieldEnd;
    assert front[0..|front|] == front;
    FieldEndAt(front, 0, |front|, ':');
    var s: CString := front + ":" + back;
    assert s[0..|front|] == front && s[|front| + 1..|s|] == back;
    FieldEndAt(s, 0, |front|, ':');
    FieldEndAt(s, |front| + 1, |s|, ':');
  }

  lemma PiecesOfText(number: string, fine: string, coarse: string, tail: string)
    requires '\0' !in number && '\0' !in fine && '\0' !in coarse && '\0' !in tail
    requires ':' !in number && ':' !in fine && ',' !in coarse && (tail == [] || tail[0] == ',')
    ensures '\0' !in number + ":" + fine + ":" + coarse + tail
    ensures Pieces(number + ":" + fine + ":" + coarse + tail) ==
            if |Runs.Cap(fine)| <= 64 && |Runs.Cap(coarse)| <= 64 then Some((Runs.Cap(fine), Runs.Cap(coarse)))
            else None
  {
    hide Runs.Cap, Runs.FieldEnd;
    var s: CString := number + ":" + fine + ":" + coarse + tail;
    var n, m := |number|, |fine|;
    FieldsOfText(number, fine, coarse, tail, s);
    FieldEndAt(s, 0, n, ':');
    FieldEndAt(s, n + 1, n + 1 + m, ':');
    FieldEndAt(s, n + m + 2, n + m + 2 + |coarse|, ',');
  }

  lemma FieldsOfText(number: string, fine: string, coarse: string, tail: string, s: string)
    requires s == number + ":" + fine + ":" + coarse + tail
    ensures
      var n, m, k := |number|, |fine|, |coarse|;
      && |s| == n + m + 2 + k + |tail| && s[n] == ':' && s[n + 1 + m] == ':'
      && s[0..n] == number && s[n + 1..n + 1 + m] == fine && s[n + m + 2..n + m + 2 + k] == coarse
      && (tail != [] ==> s[n + m + 2 + k] == tail[0])
  {
    var head := number + ":";
    assert s == head + fine + ":" + coarse + tail;
    assert s[..|head|] == head;
    assert s[|head|..|head| + |fine|] == fine;
  }

  lemma NumberHasNoDelimiter(number: string)
    requires Decimal.AllDigits(number)
    ensures ':' !in number && '\0' !in number
  {
  }

  /** Every text that the hash prints is read back: the same block size, and the two signatures
      with their runs capped. */
  lemma ParseUndoesText(block: nat, fine: string, coarse: string)
    requires block <= ULONG_MAX && Base64(fine) && Base64(coarse)
    requires |fine| <= Engine.SIGN_LENGTH && |coarse| <= Engine.SIGN_LENGTH
    ensures '\0' !in BlockSearch.Text(block, fine, coarse)
    ensures Parse(BlockSearch.Text(block, fine, coarse)) ==
            Some(Signature(block, Runs.Cap(fine), Runs.Cap(coarse)))
  {
    hide BlockSearch.Text, Parse, Base64, Runs.Cap;
    Base64HasNoDelimiter(fine);
    Base64HasNoDelimiter(coarse);
    Runs.CapIsSubsequence(fine);
    Runs.CapIsSubsequence(coarse);
    ParseOfText(block, fine, coarse, []);
    assert BlockSearch.Text(block, fine, coarse) + [] == BlockSearch.Text(block, fine, coarse);
  }

  lemma SignatureIsBase64(s: seq<byte>, blockSize: nat)
    requires blockSize > 0
    ensures Base64(Engine.Signature(s, blockSize))
  {
  }

  /** The second signature as it is printed: from 2^60 on its last character is missing. */
  function PrintedSecond(s: seq<byte>, j: nat): string {
    var coarse := Engine.Signature(s, Pow2(j + 1));
    if j < 60 || coarse == [] then coarse else Init(coarse)
  }

  /** From 2^60 on with an empty second signature, the missing character would be the second colon.
      That never happens to a hash that the search prints: `ColonIsNeverLost`. */
  predicate LosesColon(s: seq<byte>, j: nat) {
    j >= 60 && Engine.Signature(s, Pow2(j + 1)) == []
  }

  /** What is read back of a text for block size 2^j, printed by the search or not. */
  lemma ParsePrintedText(s: seq<byte>, j: nat)
    requires j < 64
    ensures
      var text := BlockSearch.PrintedText(s, j);
      && '\0' !in text
      && Parse(text) == if LosesColon(s, j) then None
                        else Some(Signature(Pow2(j), Runs.Cap(Engine.Signature(s, Pow2(j))),
                                            Runs.Cap(PrintedSecond(s, j))))
  {
    hide Engine.Signature, BlockSearch.Text, BlockSearch.Missing, Decimal.Pow10, Runs.Cap, Parse, Base64, Pow2;
    var fine, coarse := Engine.Signature(s, Pow2(j)), Engine.Signature(s, Pow2(j + 1));
    SignatureIsBase64(s, Pow2(j));
    SignatureIsBase64(s, Pow2(j + 1));
    BlockSearch.LargePowers(j);
    if j < 60 {
      ParseUndoesText(Pow2(j), fine, coarse);
    } else {
      ParseShortenedText(Pow2(j), fine, coarse);
    }
  }

  lemma ParseShortenedText(block: nat, fine: string, coarse: string)
    requires block <= ULONG_MAX && Base64(fine) && Base64(coarse)
    requires |fine| <= Engine.SIGN_LENGTH && |coarse| <= Engine.SIGN_LENGTH
    ensures
      var text := BlockSearch.Text(block, fine, coarse);
      && '\0' !in text[..|text| - 1]
      && Parse(text[..|text| - 1]) ==
         if coarse == [] then None else Some(Signature(block, Runs.Cap(fine), Runs.Cap(Init(coarse))))
  {
    hide BlockSearch.Text, Runs.Cap, Parse, Base64;
    if coarse == [] {
      TextWithoutColon(block, fine);
      ParseWithoutColon(block, fine);
    } else {
      TextWithShorterSecond(block, fine, coarse);
      Base64Init(coarse);
      ParseUndoesText(block, fine, Init(coarse));
    }
  }

  lemma Base64Init(s: string)
    requires Base64(s)
    ensures s != [] ==> Base64(Init(s))
  {
  }

  lemma TextWithShorterSecond(block: nat, fine: string, coarse: string)
    ensures
      var text := BlockSearch.Text(block, fine, coarse);
      coarse != [] ==> text[..|text| - 1] == BlockSearch.Text(block, fine, Init(coarse))
  {
    hide Decimal.Print;
  }

  lemma TextWithoutColon(block: nat, fine: string)
    ensures
      var text := BlockSearch.Text(block, fine, []);
      text[..|text| - 1] == Decimal.Print(block) + ":" + fine
  {
    hide Decimal.Print;
  }

  lemma ParseWithoutColon(block: nat, fine: string)
    requires Base64(fine)
    ensures '\0' !in Decimal.Print(block) + ":" + fine
    ensures Parse(Decimal.Print(block) + ":" + fine) == None
  {
    Decimal.PrintIsDigits(block);
    hide Decimal.Print, Decimal.Scan, Base64, Runs.FieldEnd, Runs.Cap;
    var number := Decimal.Print(block);
    Base64HasNoDelimiter(fine);
    NumberHasNoDelimiter(number);
    var s: CString := number + ":" + fine;
    var n := |number|;
    assert s[0..n] == number && s[n + 1..|s|] == fine;
    FieldEndAt(s, 0, n, ':');
    FieldEndAt(s, n + 1, |s|, ':');
  }

  /** Where the text is shortened, the second signature is the same as the first one, because both
      block sizes divide no checksum but zero; so it is long enough to lose a character. */
  lemma ColonIsNeverLost(s: seq<byte>, j: nat)
    requires BlockSearch.SigLen(s, j) > 32
    ensures !LosesColon(s, j)
    ensures j >= 60 ==> PrintedSecond(s, j) == Init(Engine.Signature(s, Pow2(j)))
    ensures j >= 60 ==> PrintedSecond(s, j) != []
  {
    hide Engine.Signature, Pow2;
    if j >= 60 {
      Engine.HugeBlocksSignAlike(s, j);
      Engine.HugeBlocksSignAlike(s, j + 1);
    }
  }

  /** What the search prints for block size 2^j, as it is read back. */
  function PrintedSignature(s: seq<byte>, j: nat): Signature {
    Signature(Pow2(j), Runs.Cap(Engine.Signature(s, Pow2(j))), Runs.Cap(PrintedSecond(s, j)))
  }

  /** From the search to the comparison, for every power of two as first block size: the printed hash
      is read back with the block size found, the capped first signature and the capped second one as
      printed, and scores 100 against itself. */
  lemma PrintedHashIsAccepted(s: seq<byte>, m: nat) returns (j: nat)
    requires m < 64 && BlockSearch.Expected(s, Pow2(m)).Hashed?
    ensures j <= m && j < 63 && BlockSearch.SigLen(s, j) > 32
    ensures forall i :: 0 <= i <= m ==> (BlockSearch.SigLen(s, i) > 32 <==> i <= j)
    ensures
      var text := BlockSearch.Expected(s, Pow2(m)).text;
      && '\0' !in text
      && Parse(text) == Some(PrintedSignature(s, j))
      && Comparison(text, text) == Value(100)
  {
    hide Engine.Signature, BlockSearch.Expected, BlockSearch.PrintedText, Runs.Cap, Parse, Comparison,
         LosesColon, PrintedSecond;
    j := BlockSearch.SearchFindsLargestBlock(s, m);
    ColonIsNeverLost(s, j);
    ParsePrintedText(s, j);
    ComparisonWithItself(BlockSearch.PrintedText(s, j));
  }

  /** Any two printed hashes compare to a percentage, except for a division by zero when they are
      different, have the same block size, and both second pieces are empty. For block sizes that
      cannot be compared it is 0. */
  lemma PrintedHashesCompare(s1: seq<byte>, m1: nat, s2: seq<byte>, m2: nat)
    requires m1 < 64 && BlockSearch.Expected(s1, Pow2(m1)).Hashed?
    requires m2 < 64 && BlockSearch.Expected(s2, Pow2(m2)).Hashed?
    ensures
      var text1, text2 := BlockSearch.Expected(s1, Pow2(m1)).text, BlockSearch.Expected(s2, Pow2(m2)).text;
      && '\0' !in text1 && '\0' !in text2
      && Parse(text1).Some? && Parse(text2).Some?
      && var x, y := Parse(text1).value, Parse(text2).value;
         var divides := x != y && x.block == y.block && x.second == [] && y.second == [];
         && (Comparison(text1, text2) == Undefined <==> divides)
         && (!divides ==> IsPercentage(Comparison(text1, text2)))
         && (x.block != y.block && x.block != 2 * y.block && y.block != 2 * x.block ==>
               Comparison(text1, text2) == Value(0))
  {
    hide Engine.Signature, BlockSearch.Expected, BlockSearch.SigLen, Runs.Cap, Comparison, Parse, PrintedSecond;
    var text1, text2 := BlockSearch.Expected(s1, Pow2(m1)).text, BlockSearch.Expected(s2, Pow2(m2)).text;
    var j1 := PrintedHashIsAccepted(s1, m1);
    var j2 := PrintedHashIsAccepted(s2, m2);
    FirstPieceIsNotEmpty(s1, j1);
    FirstPieceIsNotEmpty(s2, j2);
    SmallPowers(j1);
    ParsedComparison(text1, text2);
    ParsedBlocksScanned(text1);
    ParsedBlocksScanned(text2);
    IncomparableScoreZero(text1, text2);
  }

  /** In exponents: printed hashes whose block sizes are more than one doubling apart score 0. */
  lemma DistantHashesScoreZero(s1: seq<byte>, m1: nat, s2: seq<byte>, m2: nat, j1: nat, j2: nat)
    requires m1 < 64 && BlockSearch.Expected(s1, Pow2(m1)).Hashed?
    requires m2 < 64 && BlockSearch.Expected(s2, Pow2(m2)).Hashed?
    requires j1 <= m1 && forall i :: 0 <= i <= m1 ==> (BlockSearch.SigLen(s1, i) > 32 <==> i <= j1)
    requires j2 <= m2 && forall i :: 0 <= i <= m2 ==> (BlockSearch.SigLen(s2, i) > 32 <==> i <= j2)
    requires j1 + 1 < j2 || j2 + 1 < j1
    ensures
      var text1, text2 := BlockSearch.Expected(s1, Pow2(m1)).text, BlockSearch.Expected(s2, Pow2(m2)).text;
      '\0' !in text1 && '\0' !in text2 && Comparison(text1, text2) == Value(0)
  {
    hide Engine.Signature, BlockSearch.Expected, BlockSearch.SigLen, Runs.Cap, Comparison, Parse, PrintedSecond;
    var k1 := PrintedHashIsAccepted(s1, m1);
    var k2 := PrintedHashIsAccepted(s2, m2);
    assert BlockSearch.SigLen(s1, j1) > 32 && BlockSearch.SigLen(s2, j2) > 32;
    assert k1 == j1 && k2 == j2;
    DistantPowers(j1, j2);
    DistantPowers(j2, j1);
    hide Pow2;
    PrintedHashesCompare(s1, m1, s2, m2);
  }

  lemma DistantPowers(j: nat, k: nat)
    ensures j + 1 < k ==> Pow2(j) < 2 * Pow2(j) < Pow2(k) < 2 * Pow2(k)
  {
    if j + 1 < k {
      Pow2Monotone(j + 2, k);
      assert Pow2(j + 2) == 4 * Pow2(j);
    }
  }

  lemma SmallPowers(j: nat)
    requires j < 63
    ensures 2 * Pow2(j) <= ULONG_MAX
  {
    BlockSearch.LargePowers(j + 1);
  }

  lemma FirstPieceIsNotEmpty(s: seq<byte>, j: nat)
    requires BlockSearch.SigLen(s, j) > 32
    ensures Runs.Cap(Engine.Signature(s, Pow2(j))) != []
  {
    hide Engine.Signature, Runs.Cap;
    Runs.FirstCharacterCopied(Engine.Signature(s, Pow2(j)));
  }

  /** Any two printed hashes compare to a percentage, unless the hashes of both streams happen to be
      the FNV offset basis. */
  lemma PrintedHashesGivePercentage(s1: seq<byte>, m1: nat, s2: seq<byte>, m2: nat)
    requires m1 < 64 && BlockSearch.Expected(s1, Pow2(m1)).Hashed?
    requires m2 < 64 && BlockSearch.Expected(s2, Pow2(m2)).Hashed?
    requires Fnv.Hash(s1) != Fnv.FNV_OFFSET_BASIS || Fnv.Hash(s2) != Fnv.FNV_OFFSET_BASIS
    ensures
      var text1, text2 := BlockSearch.Expected(s1, Pow2(m1)).text, BlockSearch.Expected(s2, Pow2(m2)).text;
      && '\0' !in text1 && '\0' !in text2
      && IsPercentage(Comparison(text1, text2))
  {
    hide Engine.Signature, BlockSearch.Expected, BlockSearch.SigLen, Runs.Cap, Comparison, Parse, PrintedSecond;
    var j1 := PrintedHashIsAccepted(s1, m1);
    var j2 := PrintedHashIsAccepted(s2, m2);
    SecondPieceIsNotEmpty(s1, j1);
    SecondPieceIsNotEmpty(s2, j2);
    PrintedHashesCompare(s1, m1, s2, m2);
  }

  lemma SecondPieceIsNotEmpty(s: seq<byte>, j: nat)
    requires BlockSearch.SigLen(s, j) > 32
    ensures Fnv.Hash(s) != Fnv.FNV_OFFSET_BASIS ==> Runs.Cap(PrintedSecond(s, j)) != []
  {
    hide Engine.Signature, Runs.Cap;
    if Fnv.Hash(s) != Fnv.FNV_OFFSET_BASIS {
      ColonIsNeverLost(s, j);
      Engine.EmptySignature(s, Pow2(j + 1));
      Runs.FirstCharacterCopied(PrintedSecond(s, j));
    }
  }

  /** Two well-formed hashes whose first pieces are not empty. */
  lemma ParsedComparison(str1: CString, str2: CString)
    requires Parse(str1).Some? && Parse(str2).Some?
    requires Parse(str1).value.first != [] && Parse(str2).value.first != []
    requires 2 * Parse(str1).value.block <= ULONG_MAX
    ensures
      var x, y := Parse(str1).value, Parse(str2).value;
      var divides := x != y && x.block == y.block && x.second == [] && y.second == [];
      && (Comparison(str1, str2) == Undefined <==> divides)
      && (!divides ==> IsPercentage(Comparison(str1, str2)))
  {
    hide Decimal.Scan, Pieces, ScoreOf;
    UndefinedIff(str1, str2);
  }

  /** The comparison ranks the closer pair lower: the first two texts differ in one character of the
      second piece and score 50, the other two have nothing in common and score 100. */
  lemma CloserPairRanksLower()
    ensures
      var x, y := BlockSearch.Text(64, "AB", "AB"), BlockSearch.Text(64, "AB", "AC");
      var z := BlockSearch.Text(64, "CD", "CD");
      && '\0' !in x && '\0' !in y && '\0' !in z
      && Comparison(x, y) == Value(50) && Comparison(x, z) == Value(100)
  {
    hide BlockSearch.Text, Parse, Runs.Cap, ScorePieces;
    ParseShortText(64, "AB", "AB");
    ParseShortText(64, "AB", "AC");
    ParseShortText(64, "CD", "CD");
    EqualPiecesScore100Iff("AB", 64);
    OneReplacedScores50();
    DisjointPiecesScore("AB", "CD", 64);
    DisjointPiecesScore("AB", "CD", 128);
    ParsedBlocksScanned(BlockSearch.Text(64, "AB", "AB"));
    ParsedBlocksScanned(BlockSearch.Text(64, "AB", "AC"));
    ParsedBlocksScanned(BlockSearch.Text(64, "CD", "CD"));
  }

  /** Two texts whose comparison divides by zero: their second pieces are empty. */
  lemma SomeComparisonDividesByZero()
    ensures
      var x, y := BlockSearch.Text(64, "A", ""), BlockSearch.Text(64, "B", "");
      '\0' !in x && '\0' !in y && Comparison(x, y) == Undefined
  {
    hide BlockSearch.Text, Parse, Runs.Cap, Comparison;
    ParseShortText(64, "A", "");
    ParseShortText(64, "B", "");
    UndefinedIff(BlockSearch.Text(64, "A", ""), BlockSearch.Text(64, "B", ""));
  }

  lemma ParsedBlocksScanned(str: CString)
    requires Parse(str).Some?
    ensures Decimal.Scan(str) == Some(Parse(str).value.block)
  {
  }

  lemma ParseShortText(block: nat, fine: string, coarse: string)
    requires block <= ULONG_MAX && Base64(fine) && Base64(coarse) && |fine| <= 3 && |coarse| <= 3
    ensures '\0' !in BlockSearch.Text(block, fine, coarse)
    ensures Parse(BlockSearch.Text(block, fine, coarse)) == Some(Signature(block, fine, coarse))
  {
    hide BlockSearch.Text, Parse, Runs.Cap;
    Runs.ShortIsNotCapped(fine);
    Runs.ShortIsNotCapped(coarse);
    ParseUndoesText(block, fine, coarse);
  }

  /** The crossed pair is scored at the block size it was made with, the larger one: equal pieces
      score 100 at 32 and 0 at 64. */
  lemma CrossedPairAtItsBlockSize()
    ensures
      var x, y := BlockSearch.Text(16, "AB", "CD"), BlockSearch.Text(32, "CD", "EF");
      '\0' !in x && '\0' !in y && Comparison(x, y) == Value(100)
    ensures
      var x, y := BlockSearch.Text(32, "AB", "CD"), BlockSearch.Text(64, "CD", "EF");
      '\0' !in x && '\0' !in y && Comparison(x, y) == Value(0)
  {
    hide BlockSearch.Text, Parse, Runs.Cap, ScorePieces;
    ParseShortText(16, "AB", "CD");
    ParseShortText(32, "CD", "EF");
    ParseShortText(32, "AB", "CD");
    ParseShortText(64, "CD", "EF");
    EqualPiecesScore100Iff("CD", 32);
    EqualPiecesScore100Iff("CD", 64);
    ParsedBlocksScanned(BlockSearch.Text(16, "AB", "CD"));
    ParsedBlocksScanned(BlockSearch.Text(32, "CD", "EF"));
    ParsedBlocksScanned(BlockSearch.Text(32, "AB", "CD"));
    ParsedBlocksScanned(BlockSearch.Text(64, "CD", "EF"));
  }

  /** The second pair is scored at twice the block size, and the better of the two scores counts:
      80 for the disjoint first pair at 32, and 0 for the equal second pair at 64. */
  lemma BetterScoreCounts()
    ensures
      var x, y := BlockSearch.Text(32, "AB", "CD"), BlockSearch.Text(32, "EF", "CD");
      '\0' !in x && '\0' !in y && Comparison(x, y) == Value(80)
  {
    hide BlockSearch.Text, Parse, Runs.Cap, ScorePieces;
    ParseShortText(32, "AB", "CD");
    ParseShortText(32, "EF", "CD");
    DisjointPiecesScore("AB", "EF", 32);
    EqualPiecesScore100Iff("CD", 64);
    ParsedBlocksScanned(BlockSearch.Text(32, "AB", "CD"));
    ParsedBlocksScanned(BlockSearch.Text(32, "EF", "CD"));
  }

  lemma OneReplacedScores50()
    ensures ScorePieces("AB", "AC", 128) == Score(50)
  {
    EditDistance.DistanceZeroIffEqual("A", "A");
    EditDistance.DistanceStep("AB", "AC");
    EditDistance.DistanceStep("A", "AC");
    EditDistance.DistanceStep("AB", "A");
    EditDistance.NothingInCommon("", "AC");
    EditDistance.NothingInCommon("AB", "");
    hide EditDistance.Distance;
    assert Init("AB") == "A" && Init("AC") == "A" && Init("A") == "";
  }
}
