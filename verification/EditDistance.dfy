/** The weighted Levenshtein distance of src/edit_dist.c: inserting or removing a
    character costs 1 and replacing one costs 2. */
module EditDistance {
  import opened Words

  const EDIT_DISTN_MAXLEN := 64

  /** One cell of the table from its three neighbours. */
  function Cheapest(up: int, left: int, diagonal: int, same: bool): int {
    Min(Min(up + 1, left + 1), diagonal + (if same then 0 else 2))
  }

  /** The recurrence that the table rows are filled with. What it means is stated by
      the lemmas below, about edit scripts and about common subsequences. */
  function Distance(a: string, b: string): nat
    decreases |a| + |b|
  {
    if a == [] then |b|
    else if b == [] then |a|
    else
      Cheapest(Distance(Init(a), b), Distance(a, Init(b)), Distance(Init(a), Init(b)), Last(a) == Last(b))
  }

  /** The two-row computation, with the rows swapped by swapping the references to them. */
  method EditDistn(s1: string, s2: string) returns (d: int)
    requires |s2| <= EDIT_DISTN_MAXLEN
    ensures d == Distance(s1, s2)
  {
    hide Distance;
    var t1 := new int[EDIT_DISTN_MAXLEN + 1];
    var t2 := new int[EDIT_DISTN_MAXLEN + 1];
    for i2 := 0 to |s2| + 1
      invariant forall j :: 0 <= j < i2 ==> t1[j] == Distance(s1[..0], s2[..j])
    {
      FirstRow(s1, s2, i2);
      t1[i2] := i2;
    }
    for i1 := 0 to |s1|
      invariant t1.Length == t2.Length == EDIT_DISTN_MAXLEN + 1 && t1 != t2 && fresh(t1) && fresh(t2)
      invariant forall j :: 0 <= j <= |s2| ==> t1[j] == Distance(s1[..i1], s2[..j])
    {
      FirstColumn(s1, s2, i1 + 1);
      t2[0] := i1 + 1;
      for i2 := 0 to |s2|
        invariant forall j :: 0 <= j <= |s2| ==> t1[j] == Distance(s1[..i1], s2[..j])
        invariant forall j :: 0 <= j <= i2 ==> t2[j] == Distance(s1[..i1 + 1], s2[..j])
      {
        Cell(s1, s2, i1, i2);
        var costA := t1[i2 + 1] + 1;
        var costD := t2[i2] + 1;
        var costR := t1[i2] + (if s1[i1] == s2[i2] then 0 else 2);
        t2[i2 + 1] := Min(Min(costA, costD), costR);
      }
      t1, t2 := t2, t1;
    }
    assert s1[..|s1|] == s1 && s2[..|s2|] == s2;
    d := t1[|s2|];
  }

  lemma FirstRow(s1: string, s2: string, j: nat)
    requires j <= |s2|
    ensures Distance(s1[..0], s2[..j]) == j
  {
  }

  lemma FirstColumn(s1: string, s2: string, i: nat)
    requires i <= |s1|
    ensures Distance(s1[..i], s2[..0]) == i
  {
  }

  lemma Cell(s1: string, s2: string, i: nat, j: nat)
    requires i < |s1| && j < |s2|
    ensures
      Distance(s1[..i + 1], s2[..j + 1]) ==
      Cheapest(Distance(s1[..i], s2[..j + 1]), Distance(s1[..i + 1], s2[..j]), Distance(s1[..i], s2[..j]),
               s1[i] == s2[j])
  {
    hide Distance, Cheapest;
    DistanceUnfolded(s1[..i + 1], s2[..j + 1]);
    assert Init(s1[..i + 1]) == s1[..i] && Init(s2[..j + 1]) == s2[..j];
  }

  lemma DistanceUnfolded(a: string, b: string)
    requires a != [] && b != []
    ensures Distance(a, b) ==
            Cheapest(Distance(Init(a), b), Distance(a, Init(b)), Distance(Init(a), Init(b)), Last(a) == Last(b))
  {
    hide Cheapest;
  }

  // ---------- Edit scripts ----------

  datatype Edit = Keep | Insert(c: char) | Remove | Replace(c: char)

  function CostOf(op: Edit): nat {
    match op
    case Keep => 0
    case Insert(_) => 1
    case Remove => 1
    case Replace(_) => 2
  }

  function Cost(script: seq<Edit>): nat {
    if script == [] then 0 else Cost(script[..|script| - 1]) + CostOf(script[|script| - 1])
  }

  /** What one edit writes, on a string whose last character it deals with. */
  function Written(op: Edit, a: string): string
    requires op.Insert? || a != []
  {
    match op
    case Keep => [Last(a)]
    case Insert(c) => [c]
    case Remove => []
    case Replace(c) => [c]
  }

  /** Runs a script over a whole string, right to left; None when the script does
      not consume exactly the string. */
  function Apply(script: seq<Edit>, a: string): Option<string> {
    if script == [] then
      if a == [] then Some([]) else None
    else
      var rest, op := script[..|script| - 1], script[|script| - 1];
      if op.Insert? then Append(Apply(rest, a), Written(op, a))
      else if a == [] then None
      else Append(Apply(rest, Init(a)), Written(op, a))
  }

  function Append(s: Option<string>, tail: string): Option<string> {
    if s.Some? then Some(s.value + tail) else None
  }

  /** No edit script from `a` to `b` is cheaper than the distance. */
  lemma {:induction false} EveryScriptCostsAtLeastDistance(script: seq<Edit>, a: string, b: string)
    requires Apply(script, a) == Some(b)
    ensures Cost(script) >= Distance(a, b)
    decreases |script|
  {
    if script == [] {
    } else {
      var rest, op := script[..|script| - 1], script[|script| - 1];
      if op.Remove? {
        assert Apply(rest, Init(a)).value + [] == b;
        assert Apply(rest, Init(a)).value == b;
        EveryScriptCostsAtLeastDistance(rest, Init(a), b);
        RemovingCostsOne(a, b);
      } else {
        assert b != [];
        if op.Insert? {
          assert Init(b) == Apply(rest, a).value;
          EveryScriptCostsAtLeastDistance(rest, a, Init(b));
          InsertingCostsOne(a, b);
        } else {
          assert Init(b) == Apply(rest, Init(a)).value;
          EveryScriptCostsAtLeastDistance(rest, Init(a), Init(b));
        }
      }
    }
  }

  lemma RemovingCostsOne(a: string, b: string)
    requires a != []
    ensures Distance(a, b) <= Distance(Init(a), b) + 1
  {
    if b != [] {
      DistanceUnfolded(a, b);
      hide Distance;
    }
  }

  lemma InsertingCostsOne(a: string, b: string)
    requires b != []
    ensures Distance(a, b) <= Distance(a, Init(b)) + 1
  {
    if a != [] {
      DistanceUnfolded(a, b);
      hide Distance;
    }
  }

  /** Some edit script from `a` to `b` costs exactly the distance. */
  lemma {:induction false} SomeScriptCostsDistance(a: string, b: string) returns (script: seq<Edit>)
    ensures Apply(script, a) == Some(b)
    ensures Cost(script) == Distance(a, b)
    decreases |a| + |b|
  {
    if a == [] && b == [] {
      return [];
    }
    if a != [] && b != [] {
      DistanceStep(a, b);
    }
    assert a == [] ==> Distance(a, b) == Distance(a, Init(b)) + 1;
    assert b == [] ==> Distance(a, b) == Distance(Init(a), b) + 1;
    hide Distance, Apply, Cost;
    assert b == [] || Init(b) + [Last(b)] == b;
    assert b + [] == b;
    var op: Edit;
    if a == [] || (b != [] && Distance(a, b) == Distance(a, Init(b)) + 1) {
      script := SomeScriptCostsDistance(a, Init(b));
      op := Insert(Last(b));
    } else if b == [] || Distance(a, b) == Distance(Init(a), b) + 1 {
      script := SomeScriptCostsDistance(Init(a), b);
      op := Remove;
    } else {
      script := SomeScriptCostsDistance(Init(a), Init(b));
      op := Keep;
    }
    OneMoreEdit(script, op, a);
    script := script + [op];
  }

  lemma OneMoreEdit(script: seq<Edit>, op: Edit, a: string)
    requires op.Insert? || a != []
    ensures Cost(script + [op]) == Cost(script) + CostOf(op)
    ensures Apply(script + [op], a) == Append(Apply(script, if op.Insert? then a else Init(a)), Written(op, a))
  {
    assert (script + [op])[..|script|] == script;
  }

  // ---------- Longest common subsequence ----------

  lemma {:induction false} LastOfSubsequence(c: string, s: string)
    requires Subsequence(c, s) && c != []
    ensures Last(c) in s
  {
    if Last(c) == Last(s) {
    } else {
      LastOfSubsequence(c, Init(s));
    }
  }

  lemma SubsequenceIsShorter(c: string, a: string)
    requires Subsequence(c, a)
    ensures |c| <= |a|
  {
  }

  /** A common subsequence bounds the distance from above: keep it, drop the rest. */
  lemma {:induction false} CommonSubsequenceBoundsDistance(c: string, a: string, b: string)
    requires Subsequence(c, a) && Subsequence(c, b)
    ensures Distance(a, b) <= |a| + |b| - 2 * |c|
    decreases |a| + |b|
  {
    if c == [] {
      if a != [] && b != [] {
        CommonSubsequenceBoundsDistance(c, Init(a), b);
      }
    } else if Subsequence(c, Init(a)) {
      CommonSubsequenceBoundsDistance(c, Init(a), b);
    } else if Subsequence(c, Init(b)) {
      CommonSubsequenceBoundsDistance(c, a, Init(b));
    } else {
      CommonSubsequenceBoundsDistance(Init(c), Init(a), Init(b));
    }
  }

  /** The distance is reached by some common subsequence, which is therefore a longest one. */
  lemma DistanceIsLengthsMinusTwiceLcs(a: string, b: string) returns (c: string)
    ensures Subsequence(c, a) && Subsequence(c, b)
    ensures Distance(a, b) == |a| + |b| - 2 * |c|
    ensures forall c' :: Subsequence(c', a) && Subsequence(c', b) ==> |c'| <= |c|
  {
    hide Distance, Subsequence;
    c := CommonSubsequenceOfDistance(a, b);
    forall c' | Subsequence(c', a) && Subsequence(c', b) ensures |c'| <= |c| {
      CommonSubsequenceBoundsDistance(c', a, b);
    }
  }

  lemma {:induction false} CommonSubsequenceOfDistance(a: string, b: string) returns (c: string)
    ensures Subsequence(c, a) && Subsequence(c, b)
    ensures Distance(a, b) == |a| + |b| - 2 * |c|
    decreases |a| + |b|
  {
    if a == [] || b == [] {
      return [];
    }
    DistanceUnfolded(a, b);
    hide Distance, Subsequence;
    if Distance(a, b) == Distance(Init(a), b) + 1 {
      c := CommonSubsequenceOfDistance(Init(a), b);
      SubsequenceOfLonger(c, a);
    } else if Distance(a, b) == Distance(a, Init(b)) + 1 {
      c := CommonSubsequenceOfDistance(a, Init(b));
      SubsequenceOfLonger(c, b);
    } else {
      c := CommonSubsequenceOfDistance(Init(a), Init(b));
      SubsequenceOfLonger(c, a);
      SubsequenceOfLonger(c, b);
      if Last(a) == Last(b) {
        c := c + [Last(a)];
      }
    }
  }

  lemma SubsequenceOfLonger(c: string, s: string)
    requires s != [] && Subsequence(c, Init(s))
    ensures Subsequence(c, s) && Subsequence(c + [Last(s)], s)
  {
    assert Init(c + [Last(s)]) == c;
  }

  lemma {:induction false} PrefixIsSubsequence(c: string, x: string)
    ensures Subsequence(c, c + x)
    decreases |c| + |x|
  {
    if x != [] {
      PrefixIsSubsequence(c, Init(x));
      assert Init(c + x) == c + Init(x);
      SubsequenceOfLonger(c, c + x);
    } else if c == [] {
    } else {
      PrefixIsSubsequence(Init(c), []);
      assert c + x == c && Init(c) + [] == Init(c) && Init(c) + [Last(c)] == c;
      SubsequenceOfLonger(Init(c), c);
    }
  }

  /** A common end does not count. */
  lemma {:induction false} CommonSuffixIsFree(a: string, b: string, v: string)
    ensures Distance(a + v, b + v) == Distance(a, b)
  {
    if v == [] {
      assert a + v == a && b + v == b;
    } else {
      hide Distance;
      CommonSuffixIsFree(a, b, Init(v));
      assert Init(a + v) == a + Init(v) && Init(b + v) == b + Init(v);
      DistanceStep(a + v, b + v);
    }
  }

  /** Strings with a common beginning and a common end differ by no more than what is between. */
  lemma CommonEndsBoundDistance(u: string, x: string, y: string, v: string)
    ensures Distance(u + x + v, u + y + v) <= |x| + |y|
  {
    CommonSuffixIsFree(u + x, u + y, v);
    PrefixIsSubsequence(u, x);
    PrefixIsSubsequence(u, y);
    CommonSubsequenceBoundsDistance(u, u + x, u + y);
  }

  /** Without a common character everything is removed and inserted. */
  lemma NothingInCommon(a: string, b: string)
    requires forall c :: c in a ==> c !in b
    ensures Distance(a, b) == |a| + |b|
  {
    hide Distance;
    var c := DistanceIsLengthsMinusTwiceLcs(a, b);
    if c != [] {
      LastOfSubsequence(c, a);
      LastOfSubsequence(c, b);
    }
  }

  // ---------- The distance is a metric ----------

  lemma {:induction false} DistanceSymmetric(a: string, b: string)
    ensures Distance(a, b) == Distance(b, a)
    decreases |a| + |b|
  {
    if a == [] || b == [] {
    } else {
      DistanceSymmetric(Init(a), b);
      DistanceSymmetric(a, Init(b));
      DistanceSymmetric(Init(a), Init(b));
    }
  }

  /** Parity and range of the distance, read off the longest common subsequence. */
  lemma DistanceRange(a: string, b: string)
    ensures Distance(a, b) <= |a| + |b|
    ensures |a| - |b| <= Distance(a, b) && |b| - |a| <= Distance(a, b)
    ensures Distance(a, b) % 2 == (|a| + |b|) % 2
  {
    var c := DistanceIsLengthsMinusTwiceLcs(a, b);
    SubsequenceIsShorter(c, a);
    SubsequenceIsShorter(c, b);
    hide Subsequence, Distance;
    SameParity(|a| + |b|, |c|);
  }

  lemma SameParity(n: int, k: int)
    ensures (n - 2 * k) % 2 == n % 2
  {
  }

  lemma {:induction false} DistanceZeroIffEqual(a: string, b: string)
    ensures Distance(a, b) == 0 <==> a == b
    decreases |a| + |b|
  {
    if a == [] || b == [] {
    } else {
      DistanceZeroIffEqual(Init(a), Init(b));
      assert a == Init(a) + [Last(a)] && b == Init(b) + [Last(b)];
    }
  }

  /** Dropping the last character changes the distance by at most one. */
  lemma {:induction false} DroppingLastIsClose(a: string, b: string)
    ensures a != [] ==> Distance(Init(a), b) <= Distance(a, b) + 1
    ensures b != [] ==> Distance(a, Init(b)) <= Distance(a, b) + 1
    decreases |a| + |b|
  {
    if a == [] || b == [] {
    } else {
      DroppingLastIsClose(a, Init(b));
      DroppingLastIsClose(Init(a), b);
      RemovingCostsOne(a, Init(b));
      InsertingCostsOne(Init(a), b);
    }
  }

  /** Replacing is never better than removing and inserting, and an equal last character is always kept. */
  lemma DistanceStep(a: string, b: string)
    requires a != [] && b != []
    ensures Last(a) == Last(b) ==> Distance(a, b) == Distance(Init(a), Init(b))
    ensures Last(a) != Last(b) ==> Distance(a, b) == 1 + Min(Distance(Init(a), b), Distance(a, Init(b)))
  {
    DroppingLastIsClose(Init(a), b);
    DroppingLastIsClose(a, Init(b));
    InsertingCostsOne(Init(a), b);
  }

  lemma {:induction false} DistanceTriangle(a: string, b: string, c: string)
    ensures Distance(a, c) <= Distance(a, b) + Distance(b, c)
    decreases |a| + |b| + |c|
  {
    hide Distance;
    if a == [] || b == [] || c == [] {
      DistanceRange(a, b);
      DistanceRange(b, c);
      DistanceRange(a, c);
    } else {
      DistanceStep(a, b);
      DistanceStep(b, c);
      DistanceStep(a, c);
      RemovingCostsOne(a, c);
      InsertingCostsOne(a, c);
      DistanceTriangle(Init(a), b, c);
      DistanceTriangle(a, b, Init(c));
      DistanceTriangle(a, Init(b), c);
      DistanceTriangle(Init(a), Init(b), c);
      DistanceTriangle(a, Init(b), Init(c));
      DistanceTriangle(Init(a), Init(b), Init(c));
    }
  }
}
