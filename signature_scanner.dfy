/**
 * find_guid_in_buffer: a byte-exact linear search for a 16-byte GUID in
 * the teSize bytes from programBuffer.
 */
module SignatureScanner {
  import opened Wrappers
  import opened TeImage

  /** A GUID as the 16 bytes it occupies in memory. */
  type Guid = s: seq<Byte> | |s| == 16 witness [0, 0, 0, 0, 0, 0, 0, 0, 0, 0, 0, 0, 0, 0, 0, 0]

  /** CompareMem(programBuffer + i, key, 16) == 0. */
  predicate GuidAt(mem: Memory, info: TeInfo, key: Guid, i: nat)
    requires ProgramReadable(mem, info) && i + 16 <= info.teSize
  {
    mem[info.programBuffer + i .. info.programBuffer + i + 16] == key
  }

  /** The search loop from step i: the first i' >= i with i' <= teSize - 16 where the key lies. */
  function GuidSearch(mem: Memory, info: TeInfo, key: Guid, i: nat): (r: Option<nat>)
    requires ProgramReadable(mem, info)
    ensures r.Some? ==> i <= r.value && r.value + 16 <= info.teSize && GuidAt(mem, info, key, r.value)
    decreases info.teSize - i
  {
    if i + 16 > info.teSize then None
    else if GuidAt(mem, info, key, i) then Some(i)
    else GuidSearch(mem, info, key, i + 1)
  }

  /** find_guid_in_buffer; None stands for the -EFI_NOT_FOUND it returns when the key is absent. */
  method FindGuidInBuffer(mem: Memory, info: TeInfo, key: Guid) returns (r: Option<nat>)
    requires ProgramReadable(mem, info)
    ensures r == GuidSearch(mem, info, key, 0)
  {
    var i := 0;
    while i + 16 <= info.teSize
      invariant GuidSearch(mem, info, key, i) == GuidSearch(mem, info, key, 0)
      decreases info.teSize - i
    {
      if mem[info.programBuffer + i .. info.programBuffer + i + 16] == key {
        return Some(i);
      }
      i := i + 1;
    }
    return None;
  }

  /**
   * The offset found is the smallest one where the key lies; None means the
   * key lies at no offset i with i + 16 <= teSize.
   */
  lemma {:induction false} GuidSearchFirst(mem: Memory, info: TeInfo, key: Guid, i: nat)
    requires ProgramReadable(mem, info)
    ensures GuidSearch(mem, info, key, i).Some? ==>
      forall j :: i <= j < GuidSearch(mem, info, key, i).value ==> !GuidAt(mem, info, key, j)
    ensures GuidSearch(mem, info, key, i).None? ==>
      forall j :: i <= j && j + 16 <= info.teSize ==> !GuidAt(mem, info, key, j)
    decreases info.teSize - i
  {
    if i + 16 <= info.teSize && !GuidAt(mem, info, key, i) {
      GuidSearchFirst(mem, info, key, i + 1);
    }
  }

  /**
   * The search compares only bytes in [programBuffer, programBuffer + teSize):
   * two memories that agree there give the same answer.
   */
  lemma {:induction false} GuidSearchFrame(m1: Memory, m2: Memory, info: TeInfo, key: Guid, i: nat)
    requires ProgramReadable(m1, info) && ProgramReadable(m2, info)
    requires SameOn(m1, m2, info.programBuffer, info.programBuffer + info.teSize)
    ensures GuidSearch(m1, info, key, i) == GuidSearch(m2, info, key, i)
    decreases info.teSize - i
  {
    if i + 16 <= info.teSize {
      var p := info.programBuffer;
      assert m1[p + i .. p + i + 16] == m2[p + i .. p + i + 16];
      GuidSearchFrame(m1, m2, info, key, i + 1);
    }
  }
}
