/**
 * The view of memory the locator works with: bytes at absolute addresses,
 * little-endian 32- and 64-bit loads, the fields of the 40-byte TE header
 * that are read (the layout of the "TE Image" chapter of Volume 1 of the
 * UEFI Platform Initialization specification), and TE_INFO_STRUCT.
 */
module TeImage {
  import opened Arm64

  /** A UINT8 value. */
  type Byte = b: int | 0 <= b < 0x100

  /** Physical memory from address 0; an address at or past |mem| cannot be read. */
  type Memory = seq<Byte>

  /** 'VZ' (0x5A56) followed by the ARM64 machine type 0xAA64, as one little-endian UINT32. */
  const TeSignature: int := 0xAA645A56

  /** sizeof(EFI_TE_IMAGE_HEADER); EFI_IMAGE_SIZEOF_SECTION_HEADER, also 40, is written as a literal where it multiplies. */
  const TeHeaderSize: nat := 40

  /** *(UINT32 *)a: the four bytes at a, least significant first. */
  function ReadU32(mem: Memory, a: nat): (w: Word)
    requires a + 4 <= |mem|
  {
    mem[a] as int + 0x100 * (mem[a + 1] as int + 0x100 * (mem[a + 2] as int + 0x100 * mem[a + 3] as int))
  }

  /** Each byte of the loaded word is the byte at its place in memory. */
  lemma ReadU32Bytes(mem: Memory, a: nat)
    requires a + 4 <= |mem|
    ensures var w := ReadU32(mem, a);
      w % 0x100 == mem[a] && w / 0x100 % 0x100 == mem[a + 1] &&
      w / 0x1_0000 % 0x100 == mem[a + 2] && w / 0x100_0000 == mem[a + 3]
  {
    var w := ReadU32(mem, a);
    var hi: int := mem[a + 1] as int + 0x100 * (mem[a + 2] as int + 0x100 * mem[a + 3] as int);
    assert w == mem[a] as int + 0x100 * hi;
    assert w / 0x100 == hi;
    assert w / 0x1_0000 == mem[a + 2] as int + 0x100 * mem[a + 3] as int;
    assert w / 0x100_0000 == mem[a + 3];
  }

  /** The four bytes a little-endian store of w writes. */
  function LeBytes32(w: Word): (s: seq<Byte>)
    ensures |s| == 4
  {
    [w % 0x100, w / 0x100 % 0x100, w / 0x1_0000 % 0x100, w / 0x100_0000]
  }

  /** Storing a word and loading it back gives the word. */
  lemma ReadU32OfLeBytes(mem: Memory, a: nat, w: Word)
    requires a + 4 <= |mem| && mem[a..a + 4] == LeBytes32(w)
    ensures ReadU32(mem, a) == w
  {
    assert mem[a] == mem[a..a + 4][0] && mem[a + 1] == mem[a..a + 4][1];
    assert mem[a + 2] == mem[a..a + 4][2] && mem[a + 3] == mem[a..a + 4][3];
    var q1, q2 := w / 0x100, w / 0x1_0000;
    assert q1 == q1 % 0x100 + 0x100 * (w / 0x1_0000);
    assert q2 == q2 % 0x100 + 0x100 * (w / 0x100_0000);
  }

  /** The TE signature as it lies in memory: the bytes 'V', 'Z', 0x64, 0xAA. */
  lemma SignatureBytes(mem: Memory, a: nat)
    requires a + 4 <= |mem|
    ensures ReadU32(mem, a) == TeSignature <==> mem[a..a + 4] == [0x56, 0x5A, 0x64, 0xAA]
  {
    if mem[a..a + 4] == [0x56, 0x5A, 0x64, 0xAA] {
      assert LeBytes32(TeSignature) == [0x56, 0x5A, 0x64, 0xAA];
      ReadU32OfLeBytes(mem, a, TeSignature);
    }
  }

  /** *(UINT64 *)a, little-endian. */
  function ReadU64(mem: Memory, a: nat): (v: nat)
    requires a + 8 <= |mem|
    ensures v < 0x1_0000_0000_0000_0000
  {
    ReadU32(mem, a) + 0x1_0000_0000 * ReadU32(mem, a + 4)
  }

  /** teHeader->NumberOfSections: the UINT8 at offset 4 of the header. */
  function NumberOfSections(mem: Memory, te: nat): (n: nat)
    requires te + TeHeaderSize <= |mem|
    ensures n < 0x100
  {
    mem[te + 4]
  }

  /** teHeader->BaseOfCode: the UINT32 at offset 12 of the header. */
  function BaseOfCode(mem: Memory, te: nat): (b: Word)
    requires te + TeHeaderSize <= |mem|
  {
    ReadU32(mem, te + 12)
  }

  /** teHeader->ImageBase: the UINT64 at offset 16 of the header. */
  function ImageBase(mem: Memory, te: nat): (b: nat)
    requires te + TeHeaderSize <= |mem|
    ensures b < 0x1_0000_0000_0000_0000
  {
    ReadU64(mem, te + 16)
  }

  /**
   * TE_INFO_STRUCT: where the TE header lies (TEBuffer, whose header is
   * teHeader), where the program bytes start (programBuffer), and the two
   * scan bounds teSize and fileSize.
   */
  datatype TeInfo = TeInfo(teBuffer: nat, programBuffer: nat, teSize: nat, fileSize: nat)

  /** The bytes the GUID search compares lie in memory. */
  predicate ProgramReadable(mem: Memory, info: TeInfo)
  {
    info.programBuffer + info.teSize <= |mem|
  }

  /**
   * The words the idiom scan loads lie in memory: the TE header, the first
   * fileSize bytes from TEBuffer, and the 12 bytes before it that the
   * look-back loads reach.
   */
  predicate ImageReadable(mem: Memory, info: TeInfo)
  {
    12 <= info.teBuffer && info.teBuffer + TeHeaderSize <= |mem| && info.teBuffer + info.fileSize <= |mem|
  }

  /** Two memories hold the same bytes at every address in [lo, hi). */
  predicate SameOn(m1: Memory, m2: Memory, lo: nat, hi: nat)
  {
    hi <= |m1| && hi <= |m2| && forall a :: lo <= a < hi ==> m1[a] == m2[a]
  }

  /** A load depends only on the four bytes it reads. */
  lemma ReadU32Frame(m1: Memory, m2: Memory, a: nat, lo: nat, hi: nat)
    requires SameOn(m1, m2, lo, hi) && lo <= a && a + 4 <= hi
    ensures ReadU32(m1, a) == ReadU32(m2, a)
  {
    assert m1[a] == m2[a] && m1[a + 1] == m2[a + 1] && m1[a + 2] == m2[a + 2] && m1[a + 3] == m2[a + 3];
  }
}
