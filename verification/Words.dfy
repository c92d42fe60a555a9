/** Machine words and C strings, as the modelled sources use them. */
module Words {
  type byte = bv8

  const UINT16_MOD := 0x1_0000
  const UINT64_MOD := 0x1_0000_0000_0000_0000
  const ULONG_MAX := UINT64_MOD - 1

  datatype Option<+T> = None | Some(value: T)

  function Min(x: int, y: int): int {
    if x < y then x else y
  }

  function Init(s: string): string
    requires s != []
  {
    s[..|s| - 1]
  }

  function Last(s: string): char
    requires s != []
  {
    s[|s| - 1]
  }

  /** `c` is left of `s` when some characters of `s` are deleted. */
  predicate Subsequence(c: string, s: string) {
    c == [] || (s != [] && (Subsequence(c, Init(s)) || (Last(c) == Last(s) && Subsequence(Init(c), Init(s)))))
  }

  function Zeros(n: nat): seq<byte> {
    seq(n, _ => 0)
  }

  function Ones(n: nat): seq<byte> {
    seq(n, _ => 1)
  }

  /** The characters of a NUL-terminated string, without the terminator. */
  type CString = s: string | '\0' !in s

  /** What reading `s[i]` gives, the terminator included. */
  function CharAt(s: CString, i: nat): char
    requires i <= |s|
  {
    if i < |s| then s[i] else '\0'
  }

  function Pow2(k: nat): (p: nat)
    ensures p > 0
  {
    if k == 0 then 1 else 2 * Pow2(k - 1)
  }

  lemma HeadAndTail<T>(list: seq<T>, n: nat, x: T, rest: seq<T>)
    requires n <= |list| && list[n..] == [x] + rest
    ensures n < |list| && list[n] == x && list[n + 1..] == rest
  {
    assert |list[n..]| == 1 + |rest|;
    assert list[n] == list[n..][0] && list[n + 1..] == list[n..][1..];
  }

  lemma {:induction false} PowerOfSum(j: nat, k: nat)
    ensures Pow2(j + k) == Pow2(j) * Pow2(k)
  {
    if j == 0 {
    } else {
      PowerOfSum(j - 1, k);
      assert Pow2(j) * Pow2(k) == 2 * (Pow2(j - 1) * Pow2(k));
    }
  }

  lemma {:induction false} Pow2Monotone(j: nat, k: nat)
    requires j <= k
    ensures Pow2(j) <= Pow2(k)
  {
    if j == k {
    } else {
      Pow2Monotone(j, k - 1);
    }
  }

  lemma WordPowers()
    ensures Pow2(16) == UINT16_MOD && Pow2(56) == 0x100_0000_0000_0000 && Pow2(64) == UINT64_MOD
  {
    hide Pow2;
    FourDoublings();
    PowerOfSum(4, 4);
    PowerOfSum(8, 8);
    PowerOfSum(8, 16);
    PowerOfSum(16, 16);
    PowerOfSum(24, 32);
    PowerOfSum(32, 32);
  }

  lemma FourDoublings()
    ensures Pow2(4) == 16
  {
  }

  /** Quotient and remainder are unique. */
  lemma RemainderIs(x: nat, m: nat, q: nat, r: nat)
    requires x == m * q + r && r < m
    ensures x % m == r && x / m == q
  {
    var d := x / m;
    Factored(m, q, d);
    SmallMultiple(m, q - d);
  }

  lemma Factored(m: int, q: int, d: int)
    ensures m * q - m * d == m * (q - d)
  {
  }

  lemma SmallMultiple(m: int, k: int)
    requires m > 0
    ensures -m < m * k < m ==> k == 0
  {
    if k >= 1 { assert m * k >= m; }
    if k <= -1 { assert m * k <= -m; }
  }
}
