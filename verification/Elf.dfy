/** The part of src/elf_manager.c that the hashes use: seven sections of bytes. */
module Elf {
  import opened Words

  const SECTION_END := 7

  type ElfData = d: seq<seq<byte>> | |d| == SECTION_END witness [[], [], [], [], [], [], []]

  /** The sections one after the other. */
  function Concat(sections: seq<seq<byte>>): seq<byte> {
    if sections == [] then []
    else Concat(sections[..|sections| - 1]) + sections[|sections| - 1]
  }

  function Stream(data: ElfData): seq<byte> {
    Concat(data)
  }

  /** Byte `k` of section `i` sits in the stream behind the earlier sections. */
  lemma {:induction false} StreamIndex(sections: seq<seq<byte>>, i: nat, k: nat)
    requires i < |sections| && k <= |sections[i]|
    ensures |Concat(sections[..i])| + |sections[i]| == |Concat(sections[..i + 1])| <= |Concat(sections)|
    ensures k < |sections[i]| ==> Concat(sections)[|Concat(sections[..i])| + k] == sections[i][k]
  {
    var n := |sections| - 1;
    if i == n {
      assert sections[..i + 1] == sections;
    } else {
      StreamIndex(sections[..n], i, k);
      assert sections[..n][..i] == sections[..i] && sections[..n][..i + 1] == sections[..i + 1];
    }
  }
}
