/** The shingle table of src/shingle_table.c: an open-addressing table with linear probing, a
    cached first slot, and expansion by draining into a table of twice the size. Allocation
    always succeeds here. */
module ShingleTable {
  import opened Words
  import opened Slots

  /** The double loop of `get_hash`. */
  method GetHash(digest: Digest, size: nat) returns (hash: nat)
    requires size > 0
    ensures hash == Home(digest, size)
  {
    hash := 1;
    for i := 0 to MD5_LENGTH
      invariant hash == Product(digest[..i])
    {
      assert digest[..i + 1][..i] == digest[..i];
      hash := hash * digest[i] as nat % UINT64_MOD;
    }
    assert digest[..MD5_LENGTH] == digest;
    hash := hash % size;
    ghost var start := hash;
    for i := 0 to MD5_LENGTH
      invariant hash == SumFrom(start, digest[..i])
    {
      assert digest[..i + 1][..i] == digest[..i];
      hash := (hash + digest[i] as nat) % UINT64_MOD;
    }
    hash := hash % size;
  }

  method IsMd5Equal(digest1: Digest, digest2: Digest) returns (equal: bool)
    ensures equal <==> digest1 == digest2
  {
    for i := 0 to MD5_LENGTH
      invariant digest1[..i] == digest2[..i]
    {
      if digest1[i] != digest2[i] {
        return false;
      }
      assert digest1[..i + 1] == digest1[..i] + [digest1[i]];
      assert digest2[..i + 1] == digest2[..i] + [digest2[i]];
    }
    assert digest1[..MD5_LENGTH] == digest1 && digest2[..MD5_LENGTH] == digest2;
    return true;
  }

  class Table {
    var size: nat
    var eltCount: nat
    var indexFirst: nat
    var table: array<Slot>

    /** What every operation keeps, in any order of operations. */
    ghost predicate Valid()
      reads this, table
    {
      && 0 < size == table.Length <= ULONG_MAX
      && eltCount == Count(table[..])
      && IsFirst(table[..], indexFirst)
    }

    constructor (size: nat)
      requires 0 < size <= ULONG_MAX
      ensures Valid() && fresh(table) && this.size == size
      ensures eltCount == 0 && Build(table[..]) && Digests(table[..]) == {} && Shingles(table[..]) == {}
    {
      this.size := size;
      eltCount := 0;
      indexFirst := ULONG_MAX;
      table := new Slot[size];
      new;
      for i := 0 to size
        invariant forall j :: 0 <= j < i ==> table[j] == Empty
        modifies table
      {
        table[i] := Empty;
      }
      EmptyTable(table[..]);
    }

    predicate IsEmpty()
      reads this
    {
      eltCount == 0
    }

    predicate IsFull()
      reads this
    {
      eltCount == size
    }

    /** The probe loop: the first slot, cyclically from the home slot, that is empty or holds the digest. */
    method FindSlot(digest: Digest) returns (index: nat, found: bool)
      requires Valid() && Count(table[..]) < size
      ensures Probe(table[..], digest, 0) < size
      ensures index == Cyclic(Home(digest, size), Probe(table[..], digest, 0), size)
      ensures found <==> table[index].Empty?
    {
      hide Home, Count, IsFirst, Probe;
      ghost var t := table[..];
      ghost var p := Probe(t, digest, 0);
      ProbeTerminates(t, digest);
      ProbeStops(t, digest, 0);
      var home := GetHash(digest, size);
      index := home;
      ghost var k := 0;
      while true
        invariant k <= p && index == Cyclic(home, k, size)
        decreases p - k
      {
        if table[index].Empty? {
          return index, true;
        }
        var equal := IsMd5Equal(digest, table[index].shingle.digest);
        if equal {
          assert Holds(t, index, digest);
          return index, false;
        }
        CyclicNext(home, k, size);
        index := (index + 1) % size;
        k := k + 1;
      }
    }

    method Insert(shingle: Shingle) returns (code: InsertCode)
      requires Valid()
      modifies this, table
      ensures Valid() && table == old(table) && size == old(size)
      ensures (code, table[..]) == Insertion(old(table[..]), shingle)
      ensures Count(old(table[..])) < size ==> code != TableFull
    {
      hide Home, Count, IsFirst, Probe;
      ghost var t := table[..];
      if IsFull() {
        return TableFull;
      }
      var newInd, found := FindSlot(shingle.digest);
      if !found {
        return NoInsert;
      }
      table[newInd] := Full(shingle);
      assert table[..] == t[newInd := Full(shingle)];
      CountUpdate(t, newInd, Full(shingle));
      FirstAfterInsert(t, indexFirst, newInd, shingle);
      eltCount := eltCount + 1;
      if newInd < indexFirst {
        indexFirst := newInd;
      }
      return Inserted;
    }

    /** None stands for the error return on an empty table. */
    method RemoveFirst() returns (shingle: Option<Shingle>)
      requires Valid()
      modifies this, table
      ensures Valid() && table == old(table) && size == old(size)
      ensures shingle == None <==> Count(old(table[..])) == 0
      ensures shingle == None ==> table[..] == old(table[..])
      ensures shingle != None ==>
                && old(indexFirst) < size && old(table[indexFirst]) == Full(shingle.value)
                && table[..] == old(table[..])[old(indexFirst) := Empty]
                && Listing(old(table[..])) == [shingle.value] + Listing(table[..])
    {
      hide Count, Listing;
      ghost var t := table[..];
      CountExtremes(t);
      if IsEmpty() {
        return None;
      }
      shingle := Some(table[indexFirst].shingle);
      CountUpdate(t, indexFirst, Empty);
      ListingAfterRemoval(t, indexFirst);
      table[indexFirst] := Empty;
      ghost var rest := table[..];
      assert rest == t[indexFirst := Empty];
      CountExtremes(rest);
      eltCount := eltCount - 1;
      if IsEmpty() {
        indexFirst := ULONG_MAX;
      } else {
        ghost var next: nat :| next < |rest| && rest[next].Full?;
        var i := Next(indexFirst, size);
        while table[i].Empty?
          invariant i <= next && AllEmpty(rest, i)
          decreases next - i
          modifies {}
        {
          i := Next(i, size);
        }
        indexFirst := i;
      }
    }
  }

  function Next(i: nat, size: nat): (j: nat)
    requires i < size
    ensures i + 1 < size ==> j == i + 1
  {
    (i + 1) % size
  }

  /** Drains the table into a new one of twice the size. Only the absence of duplicates is needed
      of the old table: its probe paths break while it is drained. */
  method ExpandSize(oldTable: Table) returns (newTable: Table)
    requires oldTable.Valid() && 2 * oldTable.size <= ULONG_MAX
    requires Distinct(oldTable.table[..])
    modifies oldTable, oldTable.table
    ensures fresh(newTable) && fresh(newTable.table)
    ensures newTable.Valid() && newTable.size == 2 * old(oldTable.size)
    ensures Build(newTable.table[..])
    ensures Shingles(newTable.table[..]) == old(Shingles(oldTable.table[..]))
    ensures Digests(newTable.table[..]) == old(Digests(oldTable.table[..]))
    ensures newTable.eltCount == old(oldTable.eltCount) < newTable.size
    ensures newTable.table[..] == InsertAll(EmptySlots(newTable.size), old(Listing(oldTable.table[..])))
  {
    hide Count, Build, Distinct, Shingles, Digests, IsFirst, Listing, InsertAll;
    newTable := new Table(oldTable.size * 2);
    ghost var t := oldTable.table[..];
    ghost var list, k := Listing(t), 0;
    NothingInserted(newTable.table[..]);
    ListingIsContents(t);
    while !oldTable.IsEmpty()
      invariant oldTable.Valid() && newTable.Valid() && fresh(newTable) && fresh(newTable.table)
      invariant oldTable.table == old(oldTable.table) && oldTable.size == old(oldTable.size)
      invariant newTable.size == 2 * oldTable.size
      invariant newTable.eltCount + oldTable.eltCount == Count(t)
      invariant Distinct(oldTable.table[..]) && Build(newTable.table[..])
      invariant Moved(t, oldTable.table[..], newTable.table[..])
      invariant k <= |list| && Listing(oldTable.table[..]) == list[k..]
      invariant newTable.table[..] == InsertAll(EmptySlots(newTable.size), list[..k])
      decreases oldTable.eltCount
    {
      ghost var before, into := oldTable.table[..], newTable.table[..];
      ghost var f := oldTable.indexFirst;
      var sh := oldTable.RemoveFirst();
      var code := newTable.Insert(sh.value);
      MoveOne(t, before, into, f, sh.value);
      InsertOneMore(EmptySlots(newTable.size), list, k, sh.value, oldTable.table[..]);
      k := k + 1;
    }
    CountExtremes(oldTable.table[..]);
    ListingIsContents(oldTable.table[..]);
    assert k == |list| && list[..k] == list;
    EmptyTable(oldTable.table[..]);
  }

  function EmptySlots(size: nat): seq<Slot> {
    seq(size, _ => Empty)
  }

  lemma NothingInserted(t: seq<Slot>)
    requires t != [] && Count(t) == 0
    ensures t == EmptySlots(|t|) == InsertAll(EmptySlots(|t|), [])
  {
    CountExtremes(t);
    hide Count;
    assert forall j :: 0 <= j < |t| ==> t[j] == Empty;
  }

  lemma InsertOneMore(t: seq<Slot>, list: seq<Shingle>, k: nat, shingle: Shingle, rest: seq<Slot>)
    requires t != [] && k <= |list| && list[k..] == [shingle] + Listing(rest)
    ensures k < |list| && Listing(rest) == list[k + 1..]
    ensures InsertAll(t, list[..k + 1]) == Insertion(InsertAll(t, list[..k]), shingle).1
  {
    hide Listing, Insertion;
    HeadAndTail(list, k, shingle, Listing(rest));
    assert list[..k + 1][..k] == list[..k];
  }

  /** Every shingle of `t` is in exactly one of the two tables. */
  ghost predicate Moved(t: seq<Slot>, from: seq<Slot>, into: seq<Slot>) {
    && Shingles(t) == Shingles(from) + Shingles(into)
    && Digests(t) == Digests(from) + Digests(into)
    && Digests(from) !! Digests(into)
  }

  lemma MoveOne(t: seq<Slot>, from: seq<Slot>, into: seq<Slot>, f: nat, shingle: Shingle)
    requires f < |from| && from[f] == Full(shingle) && Distinct(from)
    requires into != [] && Build(into) && Count(into) < |into|
    requires Moved(t, from, into)
    ensures Distinct(from[f := Empty]) && Build(Insertion(into, shingle).1)
    ensures Moved(t, from[f := Empty], Insertion(into, shingle).1)
    ensures Count(from[f := Empty]) == Count(from) - 1
    ensures Insertion(into, shingle).0 == Inserted && Count(Insertion(into, shingle).1) == Count(into) + 1
  {
    hide Count, Build, Insertion;
    assert shingle.digest in Digests(from) && shingle in Shingles(from);
    ContentsAfterRemoval(from, f);
    InsertIsSetInsert(into, shingle);
    CountUpdate(from, f, Empty);
  }
}
