/** Run elimination of src/ctph.c (`copy_eliminate_sequences`): a run of equal characters is
    copied at most three times. */
module Runs {
  import opened Words

  const MAX_RUN := 3

  datatype Run = Run(c: char, length: nat)

  /** One more character prolongs the last run or starts a new one. */
  function AddToRuns(runs: seq<Run>, c: char): seq<Run> {
    if runs != [] && runs[|runs| - 1].c == c then
      runs[..|runs| - 1] + [Run(c, runs[|runs| - 1].length + 1)]
    else
      runs + [Run(c, 1)]
  }

  /** The maximal runs of a string, from left to right. */
  function RunsOf(s: string): (runs: seq<Run>)
    ensures s != [] ==> runs != [] && runs[|runs| - 1].c == s[|s| - 1]
  {
    if s == [] then [] else AddToRuns(RunsOf(s[..|s| - 1]), s[|s| - 1])
  }

  function Repeat(c: char, n: nat): (s: string)
    ensures |s| == n
  {
    if n == 0 then [] else Repeat(c, n - 1) + [c]
  }

  function Expand(runs: seq<Run>): string {
    if runs == [] then []
    else Expand(runs[..|runs| - 1]) + Repeat(runs[|runs| - 1].c, runs[|runs| - 1].length)
  }

  function CapRun(run: Run): Run {
    Run(run.c, if run.length < MAX_RUN then run.length else MAX_RUN)
  }

  function CapRuns(runs: seq<Run>): (capped: seq<Run>)
    ensures |capped| == |runs|
    ensures forall k :: 0 <= k < |runs| ==> capped[k] == CapRun(runs[k])
  {
    seq(|runs|, k requires 0 <= k < |runs| => CapRun(runs[k]))
  }

  /** Each maximal run of length k replaced by min(k, 3) copies of its character. */
  function Cap(s: string): string {
    Expand(CapRuns(RunsOf(s)))
  }

  /** The end of the field that starts at `i`: the first end token, or the end of the string. */
  function FieldEnd(s: CString, i: nat, etoken: char): (end: nat)
    requires i <= |s|
    ensures i <= end <= |s|
    ensures etoken !in s[i..end] && (end < |s| ==> s[end] == etoken)
    decreases |s| - i
  {
    if i == |s| || s[i] == etoken then i
    else
      var end := FieldEnd(s, i + 1, etoken);
      assert s[i..end] == [s[i]] + s[i + 1..end];
      end
  }

  /** The length of the last run of a non-empty string. */
  function LastRun(s: string): nat
    requires s != []
  {
    RunsOf(s)[|RunsOf(s)| - 1].length
  }

  lemma CapOfNothing()
    ensures Cap([]) == []
  {
  }

  lemma CapSnoc(s: string, c: char)
    ensures s == [] || s[|s| - 1] != c ==> Cap(s + [c]) == Cap(s) + [c] && LastRun(s + [c]) == 1
    ensures s != [] && s[|s| - 1] == c ==>
              && LastRun(s + [c]) == LastRun(s) + 1
              && Cap(s + [c]) == Cap(s) + (if LastRun(s) < MAX_RUN then [c] else [])
  {
    hide Expand, CapRuns;
    RunsOfSnoc(s, c);
    assert s == [] ==> RunsOf(s) == [];
    hide RunsOf;
    if s == [] || s[|s| - 1] != c {
      NewRun(RunsOf(s), c);
    } else {
      var runs := RunsOf(s);
      var n := |runs| - 1;
      assert runs == runs[..n] + [runs[n]];
      LongerCappedRun(runs[..n], runs[n]);
    }
  }

  lemma RunsOfSnoc(s: string, c: char)
    ensures RunsOf(s + [c]) == AddToRuns(RunsOf(s), c)
  {
    assert (s + [c])[..|s|] == s;
  }

  lemma NewRun(runs: seq<Run>, c: char)
    ensures Expand(CapRuns(runs + [Run(c, 1)])) == Expand(CapRuns(runs)) + [c]
  {
    CapRunsSnoc(runs, Run(c, 1));
    ExpandSnoc(CapRuns(runs), Run(c, 1));
    assert Repeat(c, 1) == [c];
  }

  lemma LongerCappedRun(init: seq<Run>, last: Run)
    ensures Expand(CapRuns(init + [Run(last.c, last.length + 1)])) ==
            Expand(CapRuns(init + [last])) + (if last.length < MAX_RUN then [last.c] else [])
  {
    CapRunsSnoc(init, last);
    CapRunsSnoc(init, Run(last.c, last.length + 1));
    ExpandSnoc(CapRuns(init), CapRun(last));
    ExpandSnoc(CapRuns(init), CapRun(Run(last.c, last.length + 1)));
  }

  lemma {:induction false} ShortIsNotCapped(s: string)
    requires |s| <= 3
    ensures Cap(s) == s && (s != [] ==> LastRun(s) <= |s|)
  {
    hide Cap, LastRun, RunsOf;
    if s == [] {
      CapOfNothing();
    } else {
      var init, c := Init(s), Last(s);
      assert s == init + [c];
      ShortIsNotCapped(init);
      CapSnoc(init, c);
    }
  }

  lemma CapRunsSnoc(runs: seq<Run>, run: Run)
    ensures CapRuns(runs + [run]) == CapRuns(runs) + [CapRun(run)]
  {
  }

  lemma ExpandSnoc(runs: seq<Run>, run: Run)
    ensures Expand(runs + [run]) == Expand(runs) + Repeat(run.c, run.length)
  {
    assert (runs + [run])[..|runs|] == runs;
  }

  lemma {:induction false} CapPrefix(s: string, n: nat)
    requires n <= |s|
    ensures Cap(s[..n]) <= Cap(s)
    decreases |s| - n
  {
    if n == |s| {
      assert s[..n] == s;
    } else {
      CapPrefix(s, n + 1);
      CapGrows(s[..n], s[n]);
      assert s[..n + 1] == s[..n] + [s[n]];
    }
  }

  lemma CapGrows(s: string, c: char)
    ensures Cap(s + [c]) == Cap(s) || Cap(s + [c]) == Cap(s) + [c]
    ensures Cap(s) <= Cap(s + [c])
  {
    CapSnoc(s, c);
  }

  /** The character at `j` belongs to the field unless it ends the string or the field. */
  lemma FieldGoesOn(input: CString, i: nat, j: nat, etoken: char)
    requires i <= j <= |input| && FieldEnd(input, j, etoken) == FieldEnd(input, i, etoken)
    ensures
      var end, c := FieldEnd(input, i, etoken), CharAt(input, j);
      if c == '\0' || c == etoken then j == end && input[j..end] == []
      else j < end && c == input[i..end][j - i] && FieldEnd(input, j + 1, etoken) == end
  {
  }

  /** Copies the field of `input` that starts at `i` to `out`, from `o` on and into at most `outsize`
      characters. The cursors move to what has been written and read; `room` is what is left. */
  method CopyEliminateSequences(out: array<char>, o: nat, outsize: nat, input: CString, i: nat, etoken: char)
    returns (ok: bool, o': nat, i': nat)
    requires o + outsize <= out.Length && i <= |input|
    modifies out
    ensures o <= o' <= o + outsize && i <= i' <= |input|
    ensures
      var capped := Cap(input[i..FieldEnd(input, i, etoken)]);
      && ok == (|capped| <= outsize)
      && (ok ==> out[o..o'] == capped && i' == FieldEnd(input, i, etoken))
      && (!ok ==> out[o..o'] == capped[..outsize])
    ensures forall k :: 0 <= k < out.Length && !(o <= k < o + outsize) ==> out[k] == old(out[k])
  {
    hide Copied, Cap, LastRun, RunsOf, FieldEnd, CharAt;
    o', i' := o, i;
    var prev := CharAt(input, i');
    FieldGoesOn(input, i, i, etoken);
    if prev == '\0' || prev == etoken {
      CapOfNothing();
      return true, o', i';
    }
    ghost var end := FieldEnd(input, i, etoken);
    ghost var field := input[i..end];
    FirstCharacterCopied(field);
    if outsize == 0 {
      return false, o', i';
    }
    var room := outsize - 1;
    out[o'] := prev;
    ghost var copied := [prev];
    o', i' := o' + 1, i' + 1;
    var run := 0;
    while true
      invariant o <= o' <= o' + room == o + outsize
      invariant i < i' <= end && FieldEnd(input, i', etoken) == end
      invariant out[o..o'] == copied && Copied(field, i' - i, prev, run, copied)
      invariant forall k :: 0 <= k < out.Length && !(o <= k < o + outsize) ==> out[k] == old(out[k])
      decreases end - i'
    {
      var curr := CharAt(input, i');
      FieldGoesOn(input, i, i', etoken);
      if curr == '\0' || curr == etoken {
        AllCopied(field, prev, run, copied);
        return true, o', i';
      }
      CharacterCopied(field, i' - i, prev, run, copied);
      i' := i' + 1;
      if curr == prev {
        run := run + 1;
        if run >= 3 {
          run := 3;
          continue;
        }
      } else {
        run := 0;
        prev := curr;
      }
      if room == 0 {
        return false, o', i';
      }
      room := room - 1;
      out[o'] := curr;
      copied := copied + [curr];
      o' := o' + 1;
    }
  }

  /** The first `n` characters of the field are read, `copied` holds them capped, and `run`
      counts how often the last one, `prev`, was repeated. */
  predicate Copied(field: string, n: nat, prev: char, run: nat, copied: string) {
    && 0 < n <= |field| && prev == field[n - 1]
    && run == (if LastRun(field[..n]) <= MAX_RUN then LastRun(field[..n]) - 1 else MAX_RUN)
    && copied == Cap(field[..n])
  }

  lemma FirstCharacterCopied(field: string)
    requires field != []
    ensures Copied(field, 1, field[0], 0, [field[0]])
    ensures |Cap(field)| > 0
  {
    assert field[..1] == [] + [field[0]];
    CapSnoc([], field[0]);
    CapPrefix(field, 1);
  }

  lemma AllCopied(field: string, prev: char, run: nat, copied: string)
    requires field != [] && Copied(field, |field|, prev, run, copied)
    ensures copied == Cap(field)
  {
    assert field[..|field|] == field;
  }

  lemma CharacterCopied(field: string, n: nat, prev: char, run: nat, copied: string)
    requires Copied(field, n, prev, run, copied) && n < |field|
    ensures
      if field[n] != prev then Copied(field, n + 1, field[n], 0, copied + [field[n]])
      else if run + 1 < 3 then Copied(field, n + 1, prev, run + 1, copied + [field[n]])
      else Copied(field, n + 1, prev, 3, copied)
    ensures copied <= Cap(field)
    ensures field[n] != prev || run + 1 < 3 ==> copied + [field[n]] <= Cap(field)
  {
    assert field[..n + 1] == field[..n] + [field[n]];
    CapSnoc(field[..n], field[n]);
    CapPrefix(field, n);
    CapPrefix(field, n + 1);
  }

  // ---------- What capping does ----------

  predicate WellFormed(runs: seq<Run>) {
    && (forall k :: 0 <= k < |runs| ==> runs[k].length > 0)
    && (forall k :: 0 < k < |runs| ==> runs[k - 1].c != runs[k].c)
  }

  /** The runs are maximal and non-empty, and spell the string. */
  lemma RunsSpellString(s: string)
    ensures WellFormed(RunsOf(s)) && Expand(RunsOf(s)) == s
  {
    RunsAreWellFormed(s);
    RunsExpandBack(s);
  }

  lemma {:induction false} RunsAreWellFormed(s: string)
    ensures WellFormed(RunsOf(s))
  {
    if s == [] {
    } else {
      hide WellFormed, AddToRuns;
      RunsAreWellFormed(Init(s));
      AddToRunsWellFormed(RunsOf(Init(s)), Last(s));
    }
  }

  lemma AddToRunsWellFormed(runs: seq<Run>, c: char)
    requires WellFormed(runs)
    ensures WellFormed(AddToRuns(runs, c))
  {
  }

  lemma {:induction false} RunsExpandBack(s: string)
    ensures Expand(RunsOf(s)) == s
  {
    if s == [] {
    } else {
      RunsExpandBack(s[..|s| - 1]);
      OneMoreExpandsBack(s[..|s| - 1], s[|s| - 1]);
      assert s[..|s| - 1] + [s[|s| - 1]] == s;
    }
  }

  lemma OneMoreExpandsBack(s: string, c: char)
    requires Expand(RunsOf(s)) == s
    ensures Expand(RunsOf(s + [c])) == s + [c]
  {
    RunsOfSnoc(s, c);
    ExpandAddToRuns(RunsOf(s), c);
  }

  lemma ExpandAddToRuns(runs: seq<Run>, c: char)
    ensures Expand(AddToRuns(runs, c)) == Expand(runs) + [c]
  {
    if runs != [] && runs[|runs| - 1].c == c {
      var n := |runs| - 1;
      LongerLastRun(runs[..n], runs[n]);
      assert runs == runs[..n] + [runs[n]];
    } else {
      ExpandSnoc(runs, Run(c, 1));
      assert Repeat(c, 1) == [c];
    }
  }

  lemma LongerLastRun(init: seq<Run>, last: Run)
    ensures Expand(init + [Run(last.c, last.length + 1)]) == Expand(init + [last]) + [last.c]
  {
    ExpandSnoc(init, last);
    ExpandSnoc(init, Run(last.c, last.length + 1));
  }

  /** A well-formed list of runs is the only reading of what it spells. */
  lemma {:induction false} RunsOfExpansion(runs: seq<Run>)
    requires WellFormed(runs)
    ensures RunsOf(Expand(runs)) == runs
    decreases |runs|, if runs == [] then 0 else runs[|runs| - 1].length
  {
    if runs == [] {
    } else {
      var shorter := DropLast(runs);
      var c := runs[|runs| - 1].c;
      RunsOfExpansion(shorter);
      DropLastUndone(runs);
      ExpandAddToRuns(shorter, c);
      RunsOfSnoc(Expand(shorter), c);
    }
  }

  lemma DropLastUndone(runs: seq<Run>)
    requires runs != [] && WellFormed(runs)
    ensures AddToRuns(DropLast(runs), runs[|runs| - 1].c) == runs
  {
  }

  /** The runs without the last character. */
  function DropLast(runs: seq<Run>): (shorter: seq<Run>)
    requires runs != [] && WellFormed(runs)
    ensures WellFormed(shorter)
  {
    var init, last := runs[..|runs| - 1], runs[|runs| - 1];
    if last.length == 1 then init else init + [Run(last.c, last.length - 1)]
  }

  /** The capped string has the same runs in the same order, each cut to three. */
  lemma RunsOfCap(s: string)
    ensures RunsOf(Cap(s)) == CapRuns(RunsOf(s))
    ensures |RunsOf(Cap(s))| == |RunsOf(s)|
    ensures forall k :: 0 <= k < |RunsOf(s)| ==>
              RunsOf(Cap(s))[k] == Run(RunsOf(s)[k].c, Min(RunsOf(s)[k].length, 3))
  {
    hide RunsOf, WellFormed;
    RunsAreWellFormed(s);
    CappedRunsAreWellFormed(RunsOf(s));
    RunsOfExpansion(CapRuns(RunsOf(s)));
  }

  lemma NoRunAboveThree(s: string)
    ensures forall run :: run in RunsOf(Cap(s)) ==> run.length <= 3
  {
    RunsOfCap(s);
  }

  lemma CappedRunsAreWellFormed(runs: seq<Run>)
    requires WellFormed(runs)
    ensures WellFormed(CapRuns(runs))
  {
  }

  lemma CapIdempotent(s: string)
    ensures Cap(Cap(s)) == Cap(s)
  {
    RunsOfCap(s);
    assert CapRuns(CapRuns(RunsOf(s))) == CapRuns(RunsOf(s));
  }

  lemma {:induction false} CapIsSubsequence(s: string)
    ensures Subsequence(Cap(s), s) && |Cap(s)| <= |s|
  {
    if s == [] {
    } else {
      hide Cap, Subsequence, Repeat, Expand;
      var init, c := Init(s), Last(s);
      CapIsSubsequence(init);
      CapGrows(init, c);
      SubsequenceGrows(Cap(init), init, c);
      assert s == init + [c];
    }
  }

  lemma SubsequenceGrows(x: string, s: string, c: char)
    requires Subsequence(x, s)
    ensures Subsequence(x, s + [c]) && Subsequence(x + [c], s + [c])
  {
    assert Init(s + [c]) == s && Init(x + [c]) == x;
  }
}
