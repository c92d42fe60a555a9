/** Unsigned decimal numbers, as `PRIu64` prints them and as `sscanf` with `PRIu64` reads them. */
module Decimal {
  import opened Words

  function DigitChar(d: nat): char
    requires d < 10
  {
    "0123456789"[d]
  }

  function Print(n: nat): string {
    (if n < 10 then [] else Print(n / 10)) + [DigitChar(n % 10)]
  }

  predicate IsSpace(c: char) {
    c in " \t\n\r" || c as int == 11 || c as int == 12
  }

  predicate IsDigit(c: char) {
    '0' <= c <= '9'
  }

  /** The first position from `i` on whose character is not white space. */
  function SkipSpaces(s: string, i: nat): (j: nat)
    requires i <= |s|
    ensures i <= j <= |s|
    decreases |s| - i
  {
    if i < |s| && IsSpace(s[i]) then SkipSpaces(s, i + 1) else i
  }

  /** The first position from `i` on whose character is not a digit. */
  function DigitsEnd(s: string, i: nat): (j: nat)
    requires i <= |s|
    ensures i <= j <= |s|
    ensures forall k :: i <= k < j ==> IsDigit(s[k])
    decreases |s| - i
  {
    if i < |s| && IsDigit(s[i]) then DigitsEnd(s, i + 1) else i
  }

  function DigitValue(c: char): nat
    requires IsDigit(c)
  {
    c as int - '0' as int
  }

  function ValueOf(digits: string): nat
    requires AllDigits(digits)
  {
    if digits == [] then 0
    else 10 * ValueOf(digits[..|digits| - 1]) + DigitValue(digits[|digits| - 1])
  }

  /** A number too large for 64 bits reads as the largest one; a minus sign negates modulo 2^64. */
  function ToUint64(negative: bool, value: nat): (n: nat)
    ensures n <= ULONG_MAX
  {
    if value > ULONG_MAX then ULONG_MAX
    else if negative then (UINT64_MOD - value) % UINT64_MOD
    else value
  }

  /** `sscanf(s, "%" PRIu64 ":", &n)`: the colon is not needed for the conversion to count. */
  function Scan(s: string): (n: Option<nat>)
    ensures n.Some? ==> n.value <= ULONG_MAX
  {
    var i := SkipSpaces(s, 0);
    var signed := i < |s| && (s[i] == '-' || s[i] == '+');
    var j := if signed then i + 1 else i;
    var end := DigitsEnd(s, j);
    if end == j then None
    else Some(ToUint64(signed && s[i] == '-', ValueOf(s[j..end])))
  }

  lemma DigitCharIsDigit(d: nat)
    requires d < 10
    ensures IsDigit(DigitChar(d)) && DigitValue(DigitChar(d)) == d
  {
  }

  predicate AllDigits(s: string) {
    forall k :: 0 <= k < |s| ==> IsDigit(s[k])
  }

  lemma {:induction false} PrintIsDigits(n: nat)
    ensures Print(n) != [] && AllDigits(Print(n)) && ValueOf(Print(n)) == n
  {
    var init: string := if n < 10 then [] else Print(n / 10);
    if n < 10 {
    } else {
      PrintIsDigits(n / 10);
    }
    DigitCharIsDigit(n % 10);
    ValueOfSnoc(init, DigitChar(n % 10));
  }

  lemma ValueOfSnoc(digits: string, c: char)
    requires AllDigits(digits) && IsDigit(c)
    ensures AllDigits(digits + [c]) && ValueOf(digits + [c]) == 10 * ValueOf(digits) + DigitValue(c)
  {
    assert (digits + [c])[..|digits|] == digits;
  }

  function Pow10(k: nat): nat {
    if k == 0 then 1 else 10 * Pow10(k - 1)
  }

  /** A number prints with at most k digits exactly if it is below 10^k. */
  lemma {:induction false} PrintLength(n: nat, k: nat)
    requires k > 0
    ensures |Print(n)| <= k <==> n < Pow10(k)
  {
    if n < 10 {
      Pow10Positive(k - 1);
    } else if k == 1 {
      PrintIsDigits(n / 10);
      assert Pow10(1) == 10;
    } else {
      PrintLength(n / 10, k - 1);
    }
  }

  lemma {:induction false} Pow10Positive(k: nat)
    ensures Pow10(k) > 0
  {
    if k == 0 {
    } else {
      Pow10Positive(k - 1);
    }
  }

  // ---------- Scanning ----------

  predicate IsSign(sign: string) {
    sign == "" || sign == "+" || sign == "-"
  }

  predicate AllSpaces(s: string) {
    forall k :: 0 <= k < |s| ==> IsSpace(s[k])
  }

  predicate StartsWithDigit(s: string) {
    s != [] && IsDigit(s[0])
  }

  /** White space is the blank and the five control characters from the tabulator on. */
  lemma IsSpaceIff(c: char)
    ensures IsSpace(c) <==> c as int == 32 || 9 <= c as int <= 13
  {
  }

  /** Whatever is in front of the digits and behind them, a number below 2^64 is read as it is, or
      negated modulo 2^64, and a larger one as 2^64 - 1. */
  lemma ScanOfNumber(spaces: string, sign: string, digits: string, rest: string)
    requires AllSpaces(spaces) && IsSign(sign) && digits != [] && AllDigits(digits) && !StartsWithDigit(rest)
    ensures
      var n := ValueOf(digits);
      Scan(spaces + sign + digits + rest) ==
      Some(if n >= 0x1_0000_0000_0000_0000 then 0xffff_ffff_ffff_ffff
           else if sign == "-" && n > 0 then 0x1_0000_0000_0000_0000 - n
           else n)
  {
    hide IsSpace, ValueOf, SkipSpaces, DigitsEnd, Scan;
    var s := spaces + sign + digits + rest;
    var j := |spaces| + |sign|;
    NumberInPlace(spaces, sign, digits, rest, s);
    NoSpaceOrSign(digits[0]);
    SignIsNoSpace();
    SkipSpacesTo(s, 0, |spaces|);
    DigitsEndAt(s, j, j + |digits|);
    ScanInPlace(s, |spaces|, j, j + |digits|);
  }

  lemma ScanInPlace(s: string, i: nat, j: nat, end: nat)
    requires i < |s| && i == SkipSpaces(s, 0) && j == (if s[i] == '-' || s[i] == '+' then i + 1 else i)
    requires j < end <= |s| && DigitsEnd(s, j) == end
    ensures Scan(s) == Some(ToUint64(s[i] == '-', ValueOf(s[j..end])))
  {
    hide SkipSpaces, DigitsEnd, ValueOf, ToUint64;
  }

  lemma NumberInPlace(spaces: string, sign: string, digits: string, rest: string, s: string)
    requires s == spaces + sign + digits + rest && AllSpaces(spaces) && IsSign(sign)
    requires digits != [] && AllDigits(digits)
    ensures
      var i := |spaces|;
      var j := i + |sign|;
      var end := j + |digits|;
      && (forall k :: 0 <= k < i ==> IsSpace(s[k])) && (forall k :: j <= k < end ==> IsDigit(s[k]))
      && s[i] == (if sign == "" then digits[0] else sign[0])
      && s[j..end] == digits && |s| == end + |rest| && (rest != [] ==> s[end] == rest[0])
  {
    hide IsSpace;
    var i := |spaces|;
    var j := i + |sign|;
    assert forall k :: 0 <= k < i ==> s[k] == spaces[k];
    assert forall k :: j <= k < j + |digits| ==> s[k] == digits[k - j];
  }

  /** Without a digit in the right place nothing is read. */
  lemma ScanOfNothing(spaces: string, sign: string, rest: string)
    requires AllSpaces(spaces) && IsSign(sign) && !StartsWithDigit(rest)
    requires sign == "" && rest != [] ==> !IsSpace(rest[0]) && rest[0] != '+' && rest[0] != '-'
    ensures Scan(spaces + sign + rest) == None
  {
    hide IsSpace, ValueOf;
    var s := spaces + sign + rest;
    var i := |spaces|;
    var j := i + |sign|;
    SignIsNoSpace();
    assert forall k :: 0 <= k < i ==> s[k] == spaces[k];
    assert i < |s| ==> s[i] == if sign == "" then rest[0] else sign[0];
    SkipSpacesTo(s, 0, i);
    assert j < |s| ==> s[j] == rest[0];
    DigitsEndAt(s, j, j);
  }

  lemma SignIsNoSpace()
    ensures !IsSpace('+') && !IsSpace('-')
  {
  }

  lemma {:induction false} SkipSpacesTo(s: string, i: nat, end: nat)
    requires i <= end <= |s| && (end < |s| ==> !IsSpace(s[end]))
    requires forall k :: i <= k < end ==> IsSpace(s[k])
    ensures SkipSpaces(s, i) == end
    decreases end - i
  {
    if i == end {
    } else {
      SkipSpacesTo(s, i + 1, end);
    }
  }

  /** Printing a 64-bit number in front of a non-digit and scanning it gives it back. */
  lemma ScanUndoesPrint(n: nat, rest: string)
    requires n <= ULONG_MAX && !StartsWithDigit(rest)
    ensures Scan(Print(n) + rest) == Some(n)
  {
    PrintIsDigits(n);
    hide Print, Scan;
    ScanOfNumber("", "", Print(n), rest);
    assert "" + "" + Print(n) + rest == Print(n) + rest;
  }

  lemma NoSpaceOrSign(c: char)
    requires IsDigit(c)
    ensures !IsSpace(c) && c != '-' && c != '+'
  {
  }

  lemma {:induction false} DigitsEndAt(s: string, i: nat, end: nat)
    requires i <= end <= |s| && (end < |s| ==> !IsDigit(s[end]))
    requires forall k :: i <= k < end ==> IsDigit(s[k])
    ensures DigitsEnd(s, i) == end
    decreases end - i
  {
    if i == end {
    } else {
      DigitsEndAt(s, i + 1, end);
    }
  }
}
