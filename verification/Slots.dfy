/** The contents of the shingle table of src/shingle_table.c as a value: slots that are empty or
    hold a shingle. What its operations do to the slots is defined here and reasoned about. */
module Slots {
  import opened Words

  const MD5_LENGTH := 16

  type Digest = d: seq<byte> | |d| == MD5_LENGTH witness [0, 0, 0, 0, 0, 0, 0, 0, 0, 0, 0, 0, 0, 0, 0, 0]

  /** Where a buffer starts: a section and an offset into it. */
  datatype Pointer = Pointer(section: nat, offset: nat)

  datatype Shingle = Shingle(digest: Digest, buffer: Pointer, bufferSize: nat)

  datatype Slot = Empty | Full(shingle: Shingle)

  // ---------- The home slot of a digest ----------

  /** The product of the bytes, in 64 bits. */
  function Product(bytes: seq<byte>): nat {
    if bytes == [] then 1 else Product(bytes[..|bytes| - 1]) * bytes[|bytes| - 1] as nat % UINT64_MOD
  }

  /** The bytes added to a start value, in 64 bits. */
  function SumFrom(start: nat, bytes: seq<byte>): nat {
    if bytes == [] then start else (SumFrom(start, bytes[..|bytes| - 1]) + bytes[|bytes| - 1] as nat) % UINT64_MOD
  }

  function Home(digest: Digest, size: nat): (h: nat)
    requires size > 0
    ensures h < size
  {
    SumFrom(Product(digest) % size, digest) % size
  }

  // ---------- The home slot in numbers ----------

  /** The product of the bytes as a number of any size. */
  function ByteProduct(bytes: seq<byte>): nat {
    if bytes == [] then 1 else bytes[0] as nat * ByteProduct(bytes[1..])
  }

  function ByteSum(bytes: seq<byte>): nat {
    if bytes == [] then 0 else bytes[0] as nat + ByteSum(bytes[1..])
  }

  /** Any byte may be taken out first. */
  lemma {:induction false} TakenOut(bytes: seq<byte>, i: nat)
    requires i < |bytes|
    ensures
      var rest := bytes[..i] + bytes[i + 1..];
      && ByteProduct(bytes) == bytes[i] as nat * ByteProduct(rest)
      && ByteSum(bytes) == bytes[i] as nat + ByteSum(rest)
  {
    var rest := bytes[..i] + bytes[i + 1..];
    if i == 0 {
      assert rest == bytes[1..];
    } else {
      TakenOut(bytes[1..], i - 1);
      var inner := bytes[1..][..i - 1] + bytes[1..][i..];
      assert rest[1..] == inner && rest[0] == bytes[0] && bytes[1..][i - 1] == bytes[i];
      Exchange(bytes[0] as nat, bytes[i] as nat, ByteProduct(inner));
    }
  }

  lemma Exchange(x: nat, y: nat, z: nat)
    ensures x * (y * z) == y * (x * z)
  {
  }

  lemma {:induction false} OrderIsIrrelevant(bytes: seq<byte>, other: seq<byte>)
    requires multiset(bytes) == multiset(other)
    ensures ByteProduct(bytes) == ByteProduct(other) && ByteSum(bytes) == ByteSum(other)
    decreases |bytes|
  {
    if bytes == [] {
      assert |other| == |multiset(other)| == |multiset(bytes)|;
    } else {
      hide ByteProduct, ByteSum;
      var i, rest, other' := TakeFirst(bytes, other);
      TakenOut(bytes, 0);
      TakenOut(other, i);
      OrderIsIrrelevant(rest, other');
    }
  }

  /** The first of the bytes, taken out of both. */
  lemma TakeFirst(bytes: seq<byte>, other: seq<byte>) returns (i: nat, rest: seq<byte>, other': seq<byte>)
    requires bytes != [] && multiset(bytes) == multiset(other)
    ensures i < |other| && other[i] == bytes[0]
    ensures rest == bytes[..0] + bytes[1..] && other' == other[..i] + other[i + 1..]
    ensures multiset(rest) == multiset(other')
  {
    assert bytes[0] in multiset(other);
    i :| 0 <= i < |other| && other[i] == bytes[0];
    rest, other' := bytes[..0] + bytes[1..], other[..i] + other[i + 1..];
    SplitMultiset(bytes[..0], bytes[0], bytes[1..], bytes);
    SplitMultiset(other[..i], other[i], other[i + 1..], other);
  }

  lemma SplitMultiset(front: seq<byte>, b: byte, back: seq<byte>, whole: seq<byte>)
    requires whole == front + [b] + back
    ensures b in multiset(whole) && multiset(front + back) == multiset(whole) - multiset{b}
  {
    assert multiset(whole) == multiset(front) + multiset{b} + multiset(back);
  }

  lemma LastByte(bytes: seq<byte>, n: nat)
    requires n + 1 == |bytes|
    ensures ByteProduct(bytes) == bytes[n] as nat * ByteProduct(bytes[..n])
    ensures ByteSum(bytes) == ByteSum(bytes[..n]) + bytes[n] as nat
  {
    hide ByteProduct, ByteSum;
    TakenOut(bytes, n);
    assert bytes[..n] + bytes[n + 1..] == bytes[..n];
  }

  lemma ByteSumBound(bytes: seq<byte>)
    ensures ByteSum(bytes) <= 255 * |bytes|
  {
  }

  lemma WrappedProduct(x: nat, y: nat)
    ensures x % 0x1_0000_0000_0000_0000 * y % 0x1_0000_0000_0000_0000 == y * x % 0x1_0000_0000_0000_0000
  {
    var q, r := x / 0x1_0000_0000_0000_0000, x % 0x1_0000_0000_0000_0000;
    assert y * x == (q * y) * 0x1_0000_0000_0000_0000 + r * y;
    WrappedSum(r * y, q * y);
  }

  lemma WrappedSum(x: nat, k: nat)
    ensures (k * 0x1_0000_0000_0000_0000 + x) % 0x1_0000_0000_0000_0000 == x % 0x1_0000_0000_0000_0000
  {
  }

  lemma WrappedTwice(x: nat, y: nat)
    ensures (x % 0x1_0000_0000_0000_0000 + y) % 0x1_0000_0000_0000_0000 == (x + y) % 0x1_0000_0000_0000_0000
  {
  }

  lemma {:induction false} ProductInNumbers(bytes: seq<byte>)
    ensures Product(bytes) == ByteProduct(bytes) % 0x1_0000_0000_0000_0000
  {
    if bytes == [] {
    } else {
      var n := |bytes| - 1;
      hide ByteProduct;
      ProductInNumbers(bytes[..n]);
      LastByte(bytes, n);
      WrappedProduct(ByteProduct(bytes[..n]), bytes[n] as nat);
    }
  }

  lemma {:induction false} SumInNumbers(start: nat, bytes: seq<byte>)
    requires start < 0x1_0000_0000_0000_0000
    ensures SumFrom(start, bytes) == (start + ByteSum(bytes)) % 0x1_0000_0000_0000_0000
  {
    if bytes == [] {
    } else {
      var n := |bytes| - 1;
      hide ByteSum;
      SumInNumbers(start, bytes[..n]);
      LastByte(bytes, n);
      WrappedTwice(start + ByteSum(bytes[..n]), bytes[n] as nat);
    }
  }

  /** The home slot in numbers: the product of the bytes is taken modulo 2^64 and modulo the size, and
      their sum is added, which only overflows in tables of almost 2^64 slots. */
  lemma HomeInNumbers(digest: Digest, size: nat)
    requires 0 < size <= 0x1_0000_0000_0000_0000
    ensures
      var slot := ByteProduct(digest) % 0x1_0000_0000_0000_0000 % size + ByteSum(digest);
      && Home(digest, size) == slot % 0x1_0000_0000_0000_0000 % size
      && (size + 4080 <= 0x1_0000_0000_0000_0000 ==> Home(digest, size) == slot % size)
  {
    hide Product, SumFrom, ByteProduct, ByteSum;
    ProductInNumbers(digest);
    SumInNumbers(Product(digest) % size, digest);
    ByteSumBound(digest);
  }

  /** Digests with the same bytes in any order have the same home slot. */
  lemma HomeIgnoresOrder(digest: Digest, other: Digest, size: nat)
    requires 0 < size <= 0x1_0000_0000_0000_0000 && multiset(digest) == multiset(other)
    ensures Home(digest, size) == Home(other, size)
  {
    hide Home, ByteProduct, ByteSum;
    HomeInNumbers(digest, size);
    HomeInNumbers(other, size);
    OrderIsIrrelevant(digest, other);
  }

  lemma {:induction false} OnesInNumbers(n: nat)
    ensures ByteProduct(Ones(n)) == 1 && ByteSum(Ones(n)) == n
  {
    if n == 0 {
    } else {
      assert Ones(n)[1..] == Ones(n - 1);
      OnesInNumbers(n - 1);
    }
  }

  lemma ZeroInNumbers(b: byte, n: nat)
    requires n > 0
    ensures ByteProduct(Zeros(n) + [b]) == 0 && ByteSum(Zeros(n) + [b]) == b as nat
  {
    var bytes := Zeros(n) + [b];
    assert bytes[0] == 0 && bytes[1..] == Zeros(n - 1) + [b];
    if n > 1 {
      ZeroInNumbers(b, n - 1);
    } else {
      assert bytes[1..] == [b] && [b][1..] == [];
      assert ByteSum([b]) == b as nat;
    }
  }

  /** In a table of the default size, sixteen ones are at home in slot 17, and fifteen zeros with 16
      in slot 16. */
  lemma SomeHomes()
    ensures Home(Ones(16), 10_000) == 17 && Home(Zeros(15) + [16], 10_000) == 16
  {
    hide Home, ByteProduct, ByteSum;
    OnesInNumbers(16);
    HomeInNumbers(Ones(16), 10_000);
    ZeroInNumbers(16, 15);
    HomeInNumbers(Zeros(15) + [16], 10_000);
  }

  // ---------- Counting, the first slot, contents ----------

  function Count(t: seq<Slot>): (n: nat)
    ensures n <= |t|
  {
    if t == [] then 0 else Count(t[..|t| - 1]) + (if t[|t| - 1].Full? then 1 else 0)
  }

  /** `f` is the least occupied slot, or the largest 64-bit number if there is none. */
  predicate IsFirst(t: seq<Slot>, f: nat) {
    if f == ULONG_MAX then AllEmpty(t, |t|) else f < |t| && t[f].Full? && AllEmpty(t, f)
  }

  predicate AllEmpty(t: seq<Slot>, n: nat)
    requires n <= |t|
  {
    forall j :: 0 <= j < n ==> t[j].Empty?
  }

  /** The stored shingles in slot order. */
  function Listing(t: seq<Slot>): seq<Shingle> {
    if t == [] then [] else Listing(t[..|t| - 1]) + (if t[|t| - 1].Full? then [t[|t| - 1].shingle] else [])
  }

  function Shingles(t: seq<Slot>): set<Shingle> {
    set j | 0 <= j < |t| && t[j].Full? :: t[j].shingle
  }

  function Digests(t: seq<Slot>): set<Digest> {
    set j | 0 <= j < |t| && t[j].Full? :: t[j].shingle.digest
  }

  predicate Holds(t: seq<Slot>, j: nat, digest: Digest) {
    j < |t| && t[j].Full? && t[j].shingle.digest == digest
  }

  /** No digest is stored twice. */
  predicate Distinct(t: seq<Slot>) {
    forall i, j :: 0 <= i < j < |t| && t[i].Full? && t[j].Full? ==> t[i].shingle.digest != t[j].shingle.digest
  }

  lemma {:induction false} CountUpdate(t: seq<Slot>, j: nat, slot: Slot)
    requires j < |t|
    ensures Count(t[j := slot]) == Count(t) - (if t[j].Full? then 1 else 0) + (if slot.Full? then 1 else 0)
  {
    var n := |t| - 1;
    if j == n {
      assert t[j := slot][..n] == t[..n];
    } else {
      CountUpdate(t[..n], j, slot);
      assert t[j := slot][..n] == t[..n][j := slot];
    }
  }

  lemma {:induction false} CountExtremes(t: seq<Slot>)
    ensures Count(t) == 0 <==> AllEmpty(t, |t|)
    ensures Count(t) == |t| <==> forall j :: 0 <= j < |t| ==> t[j].Full?
  {
    if t == [] {
    } else {
      CountExtremes(t[..|t| - 1]);
    }
  }

  // ---------- Cyclic probing ----------

  /** `k` slots after `home`, around the end of the table. */
  function Cyclic(home: nat, k: nat, size: nat): (j: nat)
    requires home < size && k < size
    ensures j < size
  {
    if home + k < size then home + k else home + k - size
  }

  /** How many slots `j` is after `home`. */
  function Steps(home: nat, j: nat, size: nat): (k: nat)
    requires home < size && j < size
    ensures k < size && Cyclic(home, k, size) == j
  {
    if home <= j then j - home else j - home + size
  }

  lemma CyclicNext(home: nat, k: nat, size: nat)
    requires home < size && k < size
    ensures (Cyclic(home, k, size) + 1) % size == if k + 1 < size then Cyclic(home, k + 1, size) else home
  {
    var i := Cyclic(home, k, size);
    if i + 1 < size {
      RemainderIs(i + 1, size, 0, i + 1);
    } else {
      RemainderIs(i + 1, size, 1, 0);
    }
  }

  /** The `k` slots from `home` on are occupied. */
  predicate PathFull(t: seq<Slot>, home: nat, k: nat)
    requires home < |t| && k <= |t|
  {
    forall i :: 0 <= i < k ==> t[Cyclic(home, i, |t|)].Full?
  }

  /** Every stored shingle can be reached from its home slot without meeting an empty one. */
  predicate Unbroken(t: seq<Slot>)
    requires t != []
  {
    forall j :: 0 <= j < |t| && t[j].Full? ==>
      var home := Home(t[j].shingle.digest, |t|);
      PathFull(t, home, Steps(home, j, |t|))
  }

  /** The phase in which only inserts happen. */
  predicate Build(t: seq<Slot>)
    requires t != []
  {
    Distinct(t) && Unbroken(t)
  }

  /** The steps after which probing stops: at an empty slot or at the digest. */
  function Probe(t: seq<Slot>, digest: Digest, k: nat): (p: nat)
    requires t != [] && k <= |t|
    ensures k <= p <= |t|
    decreases |t| - k
  {
    if k == |t| then k
    else
      var j := Cyclic(Home(digest, |t|), k, |t|);
      if t[j].Empty? || Holds(t, j, digest) then k else Probe(t, digest, k + 1)
  }

  datatype InsertCode = TableFull | NoInsert | Inserted

  /** What an insert returns and what it leaves in the slots. */
  function Insertion(t: seq<Slot>, shingle: Shingle): (r: (InsertCode, seq<Slot>))
    requires t != []
    ensures |r.1| == |t|
  {
    var p := Probe(t, shingle.digest, 0);
    if Count(t) == |t| || p == |t| then (TableFull, t)
    else
      var j := Cyclic(Home(shingle.digest, |t|), p, |t|);
      if t[j].Full? then (NoInsert, t) else (Inserted, t[j := Full(shingle)])
  }

  lemma {:induction false} ProbeStops(t: seq<Slot>, digest: Digest, k: nat)
    requires t != [] && k <= |t|
    ensures
      var home, p := Home(digest, |t|), Probe(t, digest, k);
      && (p < |t| ==> t[Cyclic(home, p, |t|)].Empty? || Holds(t, Cyclic(home, p, |t|), digest))
      && forall i :: k <= i < p ==> t[Cyclic(home, i, |t|)].Full? && !Holds(t, Cyclic(home, i, |t|), digest)
    decreases |t| - k
  {
    hide Home;
    if k == |t| {
    } else {
      var j := Cyclic(Home(digest, |t|), k, |t|);
      if t[j].Full? && !Holds(t, j, digest) {
        ProbeStops(t, digest, k + 1);
      }
    }
  }

  /** A table that is not full has an empty slot, and probing stops before it comes round. */
  lemma ProbeTerminates(t: seq<Slot>, digest: Digest)
    requires t != [] && Count(t) < |t|
    ensures Probe(t, digest, 0) < |t|
  {
    hide Home, Probe;
    CountExtremes(t);
    ProbeStops(t, digest, 0);
    var e :| 0 <= e < |t| && t[e].Empty?;
    var k := Steps(Home(digest, |t|), e, |t|);
    assert t[Cyclic(Home(digest, |t|), k, |t|)].Empty?;
  }

  // ---------- Insert ----------

  lemma FirstAfterInsert(t: seq<Slot>, f: nat, j: nat, shingle: Shingle)
    requires |t| <= ULONG_MAX && IsFirst(t, f) && j < |t| && t[j].Empty?
    ensures IsFirst(t[j := Full(shingle)], if j < f then j else f)
  {
  }

  lemma StepsUnique(home: nat, k: nat, size: nat)
    requires home < size && k < size
    ensures Steps(home, Cyclic(home, k, size), size) == k
  {
  }

  /** Slot `j` holds the digest and no slot before it on its path is empty. */
  predicate ReachesAt(t: seq<Slot>, digest: Digest, j: nat)
    requires t != []
  {
    Holds(t, j, digest) && PathFull(t, Home(digest, |t|), Steps(Home(digest, |t|), j, |t|))
  }

  predicate Reachable(t: seq<Slot>, digest: Digest)
    requires t != []
  {
    exists j :: 0 <= j < |t| && ReachesAt(t, digest, j)
  }

  /** Whatever was removed before, an insert into a table that is not full reports a present
      digest if and only if the digest can still be reached from its home slot. */
  lemma InsertReportsIff(t: seq<Slot>, shingle: Shingle)
    requires t != [] && Count(t) < |t|
    ensures Insertion(t, shingle).0 != TableFull
    ensures Insertion(t, shingle).0 == NoInsert <==> Reachable(t, shingle.digest)
  {
    hide Home, Probe, Count;
    var d := shingle.digest;
    var home, p := Home(d, |t|), Probe(t, d, 0);
    ProbeTerminates(t, d);
    ProbeStops(t, d, 0);
    StepsUnique(home, p, |t|);
    var e := Cyclic(home, p, |t|);
    if t[e].Full? {
      assert ReachesAt(t, d, e);
    }
    if Reachable(t, d) {
      var j :| 0 <= j < |t| && ReachesAt(t, d, j);
      var k := Steps(home, j, |t|);
      assert k >= p;
    }
  }

  /** `k` slots after `home` in modular arithmetic. */
  function After(home: nat, k: nat, size: nat): (j: nat)
    requires size > 0
    ensures j < size
  {
    (home + k) % size
  }

  lemma CyclicIsModulo(home: nat, k: nat, size: nat)
    requires home < size && k < size
    ensures Cyclic(home, k, size) == After(home, k, size)
  {
    if home + k < size {
      RemainderIs(home + k, size, 0, home + k);
    } else {
      RemainderIs(home + k, size, 1, home + k - size);
    }
  }

  /** An insert that stores its shingle puts it into the first empty slot from the home slot on, going
      upwards and around the end, and none of the slots before holds the digest. */
  lemma InsertionFillsNextEmpty(t: seq<Slot>, shingle: Shingle) returns (k: nat)
    requires t != [] && Insertion(t, shingle).0 == Inserted
    ensures k < |t|
    ensures
      var home := Home(shingle.digest, |t|);
      && t[After(home, k, |t|)] == Empty
      && Insertion(t, shingle).1 == t[After(home, k, |t|) := Full(shingle)]
      && forall i :: 0 <= i < k ==>
           t[After(home, i, |t|)].Full? && t[After(home, i, |t|)].shingle.digest != shingle.digest
  {
    hide Home, Probe, Count, After, Cyclic;
    var home := Home(shingle.digest, |t|);
    k := Probe(t, shingle.digest, 0);
    ProbeStops(t, shingle.digest, 0);
    CyclicIsModulo(home, k, |t|);
    forall i | 0 <= i < k
      ensures t[After(home, i, |t|)].Full? && t[After(home, i, |t|)].shingle.digest != shingle.digest
    {
      CyclicIsModulo(home, i, |t|);
      assert !Holds(t, Cyclic(home, i, |t|), shingle.digest);
    }
  }

  /** What is left of an insert into a full table: nothing, whether the digest is present or not. */
  lemma InsertFullIff(t: seq<Slot>, shingle: Shingle)
    requires t != []
    ensures Insertion(t, shingle).0 == TableFull <==> Count(t) == |t|
    ensures Insertion(t, shingle).0 == TableFull ==> Insertion(t, shingle).1 == t
  {
    if Count(t) < |t| {
      InsertReportsIff(t, shingle);
    }
  }

  /** The slots after inserting a list of shingles one by one. */
  function InsertAll(t: seq<Slot>, list: seq<Shingle>): (t': seq<Slot>)
    requires t != []
    ensures |t'| == |t|
  {
    if list == [] then t
    else Insertion(InsertAll(t, list[..|list| - 1]), list[|list| - 1]).1
  }

  lemma BuildReachesAll(t: seq<Slot>, digest: Digest)
    requires t != [] && Build(t)
    ensures Reachable(t, digest) <==> digest in Digests(t)
  {
    hide Home, PathFull;
    if digest in Digests(t) {
      var j :| 0 <= j < |t| && t[j].Full? && t[j].shingle.digest == digest;
      assert ReachesAt(t, digest, j);
    }
    if Reachable(t, digest) {
      var j :| 0 <= j < |t| && ReachesAt(t, digest, j);
      assert t[j].shingle.digest in Digests(t);
    }
  }

  lemma ContentsAfterFill(t: seq<Slot>, j: nat, shingle: Shingle)
    requires j < |t| && t[j].Empty?
    ensures Digests(t[j := Full(shingle)]) == Digests(t) + {shingle.digest}
    ensures Shingles(t[j := Full(shingle)]) == Shingles(t) + {shingle}
  {
    var t' := t[j := Full(shingle)];
    forall i | 0 <= i < |t| && t[i].Full?
      ensures t[i].shingle.digest in Digests(t') && t[i].shingle in Shingles(t')
    {
      assert t'[i] == t[i];
    }
    assert t'[j].shingle.digest in Digests(t') && t'[j].shingle in Shingles(t');
  }

  lemma UnbrokenAfterFill(t: seq<Slot>, k: nat, shingle: Shingle)
    requires t != [] && k < |t| && Unbroken(t) && PathFull(t, Home(shingle.digest, |t|), k)
    ensures Unbroken(t[Cyclic(Home(shingle.digest, |t|), k, |t|) := Full(shingle)])
  {
    hide Home;
    var home := Home(shingle.digest, |t|);
    var e := Cyclic(home, k, |t|);
    var t' := t[e := Full(shingle)];
    StepsUnique(home, k, |t|);
    forall j | 0 <= j < |t| && t'[j].Full?
      ensures PathFull(t', Home(t'[j].shingle.digest, |t|), Steps(Home(t'[j].shingle.digest, |t|), j, |t|))
    {
      if j != e {
        assert PathFull(t, Home(t[j].shingle.digest, |t|), Steps(Home(t[j].shingle.digest, |t|), j, |t|));
      }
    }
  }

  /** In the Build phase the slots are a set of digests: an insert reports exactly the present
      ones, adds an absent one, and keeps the phase. */
  lemma InsertIsSetInsert(t: seq<Slot>, shingle: Shingle)
    requires t != [] && Build(t) && Count(t) < |t|
    ensures
      var (code, t') := Insertion(t, shingle);
      && (code == NoInsert <==> shingle.digest in Digests(t))
      && (code == Inserted <==> shingle.digest !in Digests(t))
      && Build(t')
      && Digests(t') == Digests(t) + {shingle.digest}
      && Shingles(t') == (if shingle.digest in Digests(t) then Shingles(t) else Shingles(t) + {shingle})
      && Count(t') == Count(t) + (if shingle.digest in Digests(t) then 0 else 1)
  {
    hide Home, Probe, Count, Unbroken, Reachable;
    var home, p := Home(shingle.digest, |t|), Probe(t, shingle.digest, 0);
    InsertReportsIff(t, shingle);
    BuildReachesAll(t, shingle.digest);
    if shingle.digest !in Digests(t) {
      var e := Cyclic(home, p, |t|);
      ProbeStops(t, shingle.digest, 0);
      UnbrokenAfterFill(t, p, shingle);
      ContentsAfterFill(t, e, shingle);
      CountUpdate(t, e, Full(shingle));
      DistinctAfterFill(t, e, shingle);
    }
  }

  lemma DistinctAfterFill(t: seq<Slot>, j: nat, shingle: Shingle)
    requires j < |t| && Distinct(t) && shingle.digest !in Digests(t)
    ensures Distinct(t[j := Full(shingle)])
  {
    forall i | 0 <= i < |t| && t[i].Full? ensures t[i].shingle.digest != shingle.digest {
      assert t[i].shingle.digest in Digests(t);
    }
  }

  lemma EmptyTable(t: seq<Slot>)
    requires t != [] && AllEmpty(t, |t|)
    ensures Build(t) && Count(t) == 0 && Digests(t) == {} && Shingles(t) == {} && IsFirst(t, ULONG_MAX)
  {
    CountExtremes(t);
  }

  // ---------- Remove ----------

  lemma ContentsAfterRemoval(t: seq<Slot>, f: nat)
    requires f < |t| && t[f].Full? && Distinct(t)
    ensures Distinct(t[f := Empty])
    ensures Digests(t[f := Empty]) == Digests(t) - {t[f].shingle.digest}
    ensures Shingles(t[f := Empty]) == Shingles(t) - {t[f].shingle}
  {
    var t' := t[f := Empty];
    forall i | 0 <= i < |t| && i != f && t[i].Full?
      ensures t[i].shingle.digest in Digests(t') && t[i].shingle in Shingles(t')
      ensures t[i].shingle.digest != t[f].shingle.digest
    {
      assert t'[i] == t[i];
    }
  }

  /** The first occupied slot holds the head of the listing, and emptying it leaves the tail. */
  lemma {:induction false} ListingAfterRemoval(t: seq<Slot>, f: nat)
    requires f < |t| && t[f].Full? && AllEmpty(t, f)
    ensures Listing(t) == [t[f].shingle] + Listing(t[f := Empty])
  {
    var n := |t| - 1;
    if f == n {
      assert t[f := Empty][..n] == t[..n];
      ListingOfNothing(t[..n]);
    } else {
      ListingAfterRemoval(t[..n], f);
      assert t[f := Empty][..n] == t[..n][f := Empty];
    }
  }

  lemma {:induction false} ListingOfNothing(t: seq<Slot>)
    requires AllEmpty(t, |t|)
    ensures Listing(t) == []
  {
    if t == [] {
    } else {
      ListingOfNothing(t[..|t| - 1]);
    }
  }

  predicate DistinctDigests(list: seq<Shingle>) {
    forall i, j :: 0 <= i < j < |list| ==> list[i].digest != list[j].digest
  }

  /** The listing names each stored shingle, and in a duplicate-free table exactly once. */
  lemma {:induction false} ListingIsContents(t: seq<Slot>)
    ensures |Listing(t)| == Count(t)
    ensures forall sh :: sh in Listing(t) <==> sh in Shingles(t)
    ensures Distinct(t) ==> DistinctDigests(Listing(t))
  {
    if t == [] {
    } else {
      var init, last := t[..|t| - 1], t[|t| - 1];
      ListingIsContents(init);
      ShinglesSnoc(init, last);
      assert t == init + [last];
      if Distinct(t) && last.Full? {
        OneMoreDistinct(init, last);
      }
    }
  }

  lemma OneMoreDistinct(init: seq<Slot>, last: Slot)
    requires last.Full? && Distinct(init + [last])
    requires forall sh :: sh in Listing(init) <==> sh in Shingles(init)
    requires Distinct(init) ==> DistinctDigests(Listing(init))
    ensures DistinctDigests(Listing(init) + [last.shingle])
  {
    hide Listing;
    var t, list := init + [last], Listing(init);
    assert Distinct(init) by {
      assert forall i :: 0 <= i < |init| ==> t[i] == init[i];
    }
    forall i | 0 <= i < |list| ensures list[i].digest != last.shingle.digest {
      assert list[i] in list && list[i] in Shingles(init);
      var j :| 0 <= j < |init| && init[j].Full? && init[j].shingle == list[i];
      assert t[j] == init[j] && t[|init|] == last;
    }
  }

  lemma ShinglesSnoc(t: seq<Slot>, slot: Slot)
    ensures Shingles(t + [slot]) == Shingles(t) + (if slot.Full? then {slot.shingle} else {})
  {
    var t' := t + [slot];
    forall i | 0 <= i < |t| && t[i].Full? ensures t[i].shingle in Shingles(t') {
      assert t'[i] == t[i];
    }
    if slot.Full? {
      assert t'[|t|].shingle in Shingles(t');
    }
  }

  // ---------- An insert after a remove ----------

  /** After emptying slot `f` of a table in the Build phase, a digest that is still stored in slot
      `j` is reported by an insert if and only if `f` is not on the path to `j`. Otherwise the
      insert stores the digest a second time. */
  lemma InsertAfterRemoval(t: seq<Slot>, f: nat, j: nat, shingle: Shingle)
    requires t != [] && Build(t) && f < |t| && j < |t| && f != j && t[f].Full?
    requires Holds(t, j, shingle.digest)
    ensures
      var home := Home(shingle.digest, |t|);
      var (code, t') := Insertion(t[f := Empty], shingle);
      && (code == NoInsert <==> Steps(home, j, |t|) < Steps(home, f, |t|))
      && (code != NoInsert ==> code == Inserted && !Distinct(t'))
  {
    hide Home, Probe, Count;
    var d, r := shingle.digest, t[f := Empty];
    var home := Home(d, |t|);
    CountUpdate(t, f, Empty);
    InsertReportsIff(r, shingle);
    forall i | 0 <= i < |t| && Holds(r, i, d) ensures i == j {
    }
    StepsUnique(home, Steps(home, j, |t|), |t|);
    if Steps(home, f, |t|) < Steps(home, j, |t|) {
      assert r[Cyclic(home, Steps(home, f, |t|), |t|)].Empty?;
      var e, t' := Cyclic(home, Probe(r, d, 0), |t|), Insertion(r, shingle).1;
      assert e != j && Holds(t', e, d) && Holds(t', j, d);
      assert !Distinct(t') by {
        if e < j { assert t'[e].shingle.digest == t'[j].shingle.digest; }
      }
    } else {
      assert ReachesAt(r, d, j);
    }
  }

  lemma {:induction false} SumZeros(start: nat, bytes: seq<byte>, n: nat)
    requires SumFrom(start, bytes) < UINT64_MOD
    ensures SumFrom(start, bytes + Zeros(n)) == SumFrom(start, bytes)
  {
    if n == 0 {
      assert bytes + Zeros(0) == bytes;
    } else {
      assert (bytes + Zeros(n))[..|bytes| + n - 1] == bytes + Zeros(n - 1);
      SumZeros(start, bytes, n - 1);
    }
  }

  lemma HomeOfEvenDigests()
    ensures Home(Zeros(16), 2) == 0 && Home([2] + Zeros(15), 2) == 0
  {
    SumZeros(0, [], 16);
    assert [] + Zeros(16) == Zeros(16);
    assert SumFrom(0, [2]) == 2;
    SumZeros(0, [2], 15);
    assert Product(Zeros(16)) == 0 && Product([2] + Zeros(15)) == 0;
  }

  /** The table is not a set once something was removed: two digests with the same home, the first
      of them removed, and the other one is stored a second time. */
  lemma SetIsLostAfterRemoval(buffer: Pointer)
    ensures
      var x, y := Shingle(Zeros(16), buffer, 1), Shingle([2] + Zeros(15), buffer, 1);
      var t := [Full(x), Full(y)];
      var (code, t') := Insertion(t[0 := Empty], y);
      Build(t) && IsFirst(t, 0) && code == Inserted && t' == [Full(y), Full(y)]
  {
    HomeOfEvenDigests();
    var x, y := Shingle(Zeros(16), buffer, 1), Shingle([2] + Zeros(15), buffer, 1);
    assert x.digest[0] != y.digest[0];
    var t := [Full(x), Full(y)];
    hide Home;
    assert Unbroken(t);
    InsertAfterRemoval(t, 0, 1, y);
    assert Cyclic(0, 0, 2) == 0;
    assert Probe(t[0 := Empty], y.digest, 0) == 0;
  }
}
