/**
 * find_protocol_scheduler and find_protocol_xbldt: find the GUID, scan the
 * image for the ADRP/ADD pair that computes the GUID's offset, and build
 * the protocol's absolute address from a second ADRP/ADD pair next to it.
 */
module AddressResolver {
  import opened Wrappers
  import opened Arm64
  import opened Decoder
  import opened TeImage
  import opened SignatureScanner

  /**
   * The two instruction idioms. Relative to the ADRP at offset o:
   *   Scheduler (find_protocol_scheduler): ADD at o + 8, look-back ADRP at o - 4, ADD at o + 4;
   *   Table (find_protocol_xbldt):        ADD at o + 4, look-back ADRP at o - 12, ADD at o - 8.
   */
  datatype Idiom = Scheduler | Table

  function AddDistance(k: Idiom): (d: int)
  {
    match k
    case Scheduler => 8
    case Table => 4
  }

  function LookBackAdrpDistance(k: Idiom): (d: int)
  {
    match k
    case Scheduler => -4
    case Table => -12
  }

  function LookBackAddDistance(k: Idiom): (d: int)
  {
    match k
    case Scheduler => 4
    case Table => -8
  }

  /** The scan runs while offset < fileSize - 8 - sizeof(EFI_TE_IMAGE_HEADER). */
  const ScanMargin: nat := 48

  /** -EFI_NOT_FOUND returned as a UINT64 (EFI_NOT_FOUND is MAX_BIT | 14 on a 64-bit build). */
  const NotFoundAddress: nat := 0x7FFF_FFFF_FFFF_FFF2

  /** The same value once stored in the UINT32 guid_offset. */
  const NotFoundOffset: nat := 0xFFFF_FFF2

  /** The UINT32 loop counter's value at step o: the program counter given to parse_adrp. */
  function Pc(o: nat): (pc: nat)
    ensures pc < 0x1_0000_0000 && (o < 0x1_0000_0000 ==> pc == o)
  {
    o % 0x1_0000_0000
  }

  /** The four words one step of the scan loads. */
  datatype IdiomWords = IdiomWords(adrp: Word, add: Word, backAdrp: Word, backAdd: Word)

  /** The word at TEBuffer + o + d, for the distances the two idioms use. */
  function WordAt(mem: Memory, info: TeInfo, o: nat, d: int): Word
    requires ImageReadable(mem, info) && o + ScanMargin < info.fileSize && -12 <= d <= 8
  {
    ReadU32(mem, info.teBuffer + o + d)
  }

  /** The ADRP at o, its ADD, and the look-back ADRP and ADD of idiom k. */
  function WordsAt(mem: Memory, info: TeInfo, k: Idiom, o: nat): IdiomWords
    requires ImageReadable(mem, info) && o + ScanMargin < info.fileSize
  {
    IdiomWords(WordAt(mem, info, o, 0), WordAt(mem, info, o, AddDistance(k)),
               WordAt(mem, info, o, LookBackAdrpDistance(k)), WordAt(mem, info, o, LookBackAddDistance(k)))
  }

  /** teHeader->BaseOfCode + teHeader->ImageBase, the part of the result taken from the header. */
  function LoadAddress(mem: Memory, te: nat): (a: nat)
    requires te + TeHeaderSize <= |mem|
    ensures a < 0x1_0000_0000 + 0x1_0000_0000_0000_0000
  {
    BaseOfCode(mem, te) + ImageBase(mem, te)
  }

  /**
   * The checks of one scan step on the words it loads, with the loop
   * counter pc: the ADRP (parsed with pc) and its ADD must compute
   * guidOffset in 32 bits, and the look-back ADRP (parsed with the same pc)
   * and ADD must be valid; the result is their sum plus the load address,
   * modulo 2^64.
   */
  function MatchWords(w: IdiomWords, pc: nat, guidOffset: nat, load: nat): (r: Option<nat>)
    requires pc < 0x1_0000_0000
    ensures r.Some? ==> r.value < 0x1_0000_0000_0000_0000
  {
    if !ValidateAdrp(w.adrp) || !ValidateAdd(w.add) then None
    else if (ParseAdrp(DecodeAdrp(w.adrp), pc).rdAfterExecution + AddImm12(w.add)) % 0x1_0000_0000 != guidOffset then None
    else if !ValidateAdrp(w.backAdrp) || !ValidateAdd(w.backAdd) then None
    else Some(LookBackAddress(w, pc, load))
  }

  /** The look-back ADRP (parsed with pc) plus its ADD's imm12 plus the load address, in 64 bits. */
  function LookBackAddress(w: IdiomWords, pc: nat, load: nat): (a: nat)
    requires pc < 0x1_0000_0000
    ensures a < 0x1_0000_0000_0000_0000
  {
    Wrap64(ParseAdrp(DecodeAdrp(w.backAdrp), pc).rdAfterExecution + AddImm12(w.backAdd) + load)
  }

  /** A UINT64 sum: the value modulo 2^64. */
  function Wrap64(x: nat): (r: nat)
    ensures r < 0x1_0000_0000_0000_0000 && (x < 0x1_0000_0000_0000_0000 ==> r == x)
  {
    x % 0x1_0000_0000_0000_0000
  }

  /** One step of the scan at offset o. */
  function IdiomAt(mem: Memory, info: TeInfo, k: Idiom, guidOffset: nat, o: nat): (r: Option<nat>)
    requires ImageReadable(mem, info) && o + ScanMargin < info.fileSize
    ensures r.Some? ==> r.value < 0x1_0000_0000_0000_0000
  {
    MatchWords(WordsAt(mem, info, k, o), Pc(o), guidOffset, LoadAddress(mem, info.teBuffer))
  }

  /** The first of o, o + 4, o + 8, ... below bound at which p holds. */
  function FirstStep(p: nat -> bool, o: nat, bound: nat): (r: Option<nat>)
    ensures r.Some? ==> o <= r.value < bound && (r.value - o) % 4 == 0 && p(r.value)
    decreases bound - o
  {
    if o >= bound then None
    else if p(o) then Some(o)
    else FirstStep(p, o + 4, bound)
  }

  /** The idiom matches at offset o, an offset the scan visits. */
  function Matches(mem: Memory, info: TeInfo, k: Idiom, guidOffset: nat): nat -> bool
  {
    (o: nat) => ImageReadable(mem, info) && o + ScanMargin < info.fileSize && IdiomAt(mem, info, k, guidOffset, o).Some?
  }

  /** The loop bound: offsets o with o < fileSize - 48. */
  function ScanBound(info: TeInfo): (b: nat)
    ensures info.fileSize > ScanMargin ==> b + ScanMargin == info.fileSize
    ensures info.fileSize <= ScanMargin ==> b == 0
  {
    if info.fileSize > ScanMargin then info.fileSize - ScanMargin else 0
  }

  /** The offset at which the scan stops, if any. */
  function FirstMatch(mem: Memory, info: TeInfo, k: Idiom, guidOffset: nat): (r: Option<nat>)
    requires ImageReadable(mem, info)
    ensures r.Some? ==> r.value % 4 == 0 && r.value + ScanMargin < info.fileSize
    ensures r.Some? ==> IdiomAt(mem, info, k, guidOffset, r.value).Some?
  {
    FirstStep(Matches(mem, info, k, guidOffset), 0, ScanBound(info))
  }

  /** The address the scan returns, if any offset matches. */
  function Resolve(mem: Memory, info: TeInfo, k: Idiom, guidOffset: nat): (r: Option<nat>)
    requires ImageReadable(mem, info)
    ensures r.Some? ==> r.value < 0x1_0000_0000_0000_0000
  {
    match FirstMatch(mem, info, k, guidOffset)
    case None => None
    case Some(o) => IdiomAt(mem, info, k, guidOffset, o)
  }

  /**
   * find_protocol_scheduler (Scheduler) and find_protocol_xbldt (Table),
   * with the GUID-not-found check doing what it is evidently meant to do:
   * -EFI_NOT_FOUND when the GUID is absent or no offset matches.
   */
  function FindProtocol(mem: Memory, info: TeInfo, k: Idiom, key: Guid): (addr: nat)
    requires ProgramReadable(mem, info) && ImageReadable(mem, info)
    ensures addr < 0x1_0000_0000_0000_0000
  {
    match GuidSearch(mem, info, key, 0)
    case None => NotFoundAddress
    case Some(i) =>
      match Resolve(mem, info, k, i % 0x1_0000_0000)
      case None => NotFoundAddress
      case Some(a) => a
  }

  /** The idiom scan loop shared by both searches. */
  method ScanForIdiom(mem: Memory, info: TeInfo, k: Idiom, guidOffset: nat) returns (r: Option<nat>)
    requires ImageReadable(mem, info)
    ensures r == Resolve(mem, info, k, guidOffset)
  {
    var o := 0;
    while o + ScanMargin < info.fileSize
      invariant FirstStep(Matches(mem, info, k, guidOffset), o, ScanBound(info)) == FirstMatch(mem, info, k, guidOffset)
      decreases info.fileSize - o
    {
      var m := IdiomAt(mem, info, k, guidOffset, o);
      if m.Some? {
        return m;
      }
      o := o + 4;
    }
    return None;
  }

  /** find_protocol_scheduler. */
  method FindProtocolScheduler(mem: Memory, info: TeInfo, key: Guid) returns (addr: nat)
    requires ProgramReadable(mem, info) && ImageReadable(mem, info)
    ensures addr == FindProtocol(mem, info, Scheduler, key)
  {
    addr := FindProtocolWith(mem, info, Scheduler, key);
  }

  /** find_protocol_xbldt. */
  method FindProtocolXbldt(mem: Memory, info: TeInfo, key: Guid) returns (addr: nat)
    requires ProgramReadable(mem, info) && ImageReadable(mem, info)
    ensures addr == FindProtocol(mem, info, Table, key)
  {
    addr := FindProtocolWith(mem, info, Table, key);
  }

  /** The body the two searches share: GUID search, then the idiom scan. */
  method FindProtocolWith(mem: Memory, info: TeInfo, k: Idiom, key: Guid) returns (addr: nat)
    requires ProgramReadable(mem, info) && ImageReadable(mem, info)
    ensures addr == FindProtocol(mem, info, k, key)
  {
    var guidOffset := FindGuidInBuffer(mem, info, key);
    if guidOffset.None? {
      return NotFoundAddress;
    }
    var r := ScanForIdiom(mem, info, k, guidOffset.value % 0x1_0000_0000);
    addr := if r.Some? then r.value else NotFoundAddress;
  }

  /**
   * The search stops at the first step where p holds: p fails at every step
   * before it, and None means p fails at every step below the bound.
   */
  lemma {:induction false} FirstStepFirst(p: nat -> bool, o: nat, bound: nat)
    ensures FirstStep(p, o, bound).Some? ==>
      forall o' :: o <= o' < FirstStep(p, o, bound).value && (o' - o) % 4 == 0 ==> !p(o')
    ensures FirstStep(p, o, bound).None? ==>
      forall o' :: o <= o' < bound && (o' - o) % 4 == 0 ==> !p(o')
    decreases bound - o
  {
    if o < bound && !p(o) {
      FirstStepFirst(p, o + 4, bound);
      var r := FirstStep(p, o, bound);
      var last := if r.Some? then r.value else bound;
      forall o' | o <= o' < last && (o' - o) % 4 == 0
        ensures !p(o')
      {
        if o' != o {
          var d := o' - o;
          assert d == 4 * (d / 4) && d / 4 >= 1;
          assert o + 4 <= o' && (o' - (o + 4)) % 4 == 0;
        }
      }
    }
  }

  /** Two step predicates that agree everywhere stop the search at the same step. */
  lemma {:induction false} FirstStepCongruence(p1: nat -> bool, p2: nat -> bool, o: nat, bound: nat)
    requires forall o' :: p1(o') == p2(o')
    ensures FirstStep(p1, o, bound) == FirstStep(p2, o, bound)
    decreases bound - o
  {
    if o < bound {
      FirstStepCongruence(p1, p2, o + 4, bound);
    }
  }

  /**
   * The scan returns at the first offset where every check passes: a failed
   * check at a smaller offset moves on to the next one, and None means no
   * offset below fileSize - 48 matches.
   */
  lemma FirstMatchFirst(mem: Memory, info: TeInfo, k: Idiom, guidOffset: nat)
    requires ImageReadable(mem, info)
    ensures FirstMatch(mem, info, k, guidOffset).Some? ==>
      forall o :: 0 <= o < FirstMatch(mem, info, k, guidOffset).value && o % 4 == 0 ==>
        IdiomAt(mem, info, k, guidOffset, o).None?
    ensures FirstMatch(mem, info, k, guidOffset).None? ==>
      forall o :: 0 <= o && o + ScanMargin < info.fileSize && o % 4 == 0 ==>
        IdiomAt(mem, info, k, guidOffset, o).None?
  {
    var p := Matches(mem, info, k, guidOffset);
    FirstStepFirst(p, 0, ScanBound(info));
    forall o | 0 <= o && o + ScanMargin < info.fileSize && o % 4 == 0 && !p(o)
      ensures IdiomAt(mem, info, k, guidOffset, o).None?
    {
    }
  }

  /**
   * The scan loads only words in [TEBuffer - 12, TEBuffer + fileSize): two
   * memories that agree there give the same result at every step.
   */
  lemma IdiomAtFrame(m1: Memory, m2: Memory, info: TeInfo, k: Idiom, guidOffset: nat, o: nat)
    requires ImageReadable(m1, info) && ImageReadable(m2, info) && o + ScanMargin < info.fileSize
    requires SameOn(m1, m2, info.teBuffer - 12, info.teBuffer + info.fileSize)
    ensures IdiomAt(m1, info, k, guidOffset, o) == IdiomAt(m2, info, k, guidOffset, o)
  {
    var lo, hi, te := info.teBuffer - 12, info.teBuffer + info.fileSize, info.teBuffer;
    ReadU32Frame(m1, m2, te + o, lo, hi);
    ReadU32Frame(m1, m2, te + o + AddDistance(k), lo, hi);
    ReadU32Frame(m1, m2, te + o + LookBackAdrpDistance(k), lo, hi);
    ReadU32Frame(m1, m2, te + o + LookBackAddDistance(k), lo, hi);
    ReadU32Frame(m1, m2, te + 12, lo, hi);
    ReadU32Frame(m1, m2, te + 16, lo, hi);
    ReadU32Frame(m1, m2, te + 20, lo, hi);
    assert WordsAt(m1, info, k, o) == WordsAt(m2, info, k, o);
    assert LoadAddress(m1, te) == LoadAddress(m2, te);
  }

  lemma FirstMatchFrame(m1: Memory, m2: Memory, info: TeInfo, k: Idiom, guidOffset: nat)
    requires ImageReadable(m1, info) && ImageReadable(m2, info)
    requires SameOn(m1, m2, info.teBuffer - 12, info.teBuffer + info.fileSize)
    ensures FirstMatch(m1, info, k, guidOffset) == FirstMatch(m2, info, k, guidOffset)
  {
    var p1, p2 := Matches(m1, info, k, guidOffset), Matches(m2, info, k, guidOffset);
    forall o: nat
      ensures p1(o) == p2(o)
    {
      if o + ScanMargin < info.fileSize {
        IdiomAtFrame(m1, m2, info, k, guidOffset, o);
      }
    }
    FirstStepCongruence(p1, p2, 0, ScanBound(info));
  }

  /**
   * Both searches read nothing but the GUID range [programBuffer,
   * programBuffer + teSize) and the image window [TEBuffer - 12,
   * TEBuffer + fileSize).
   */
  lemma FindProtocolFrame(m1: Memory, m2: Memory, info: TeInfo, k: Idiom, key: Guid)
    requires ProgramReadable(m1, info) && ImageReadable(m1, info)
    requires ProgramReadable(m2, info) && ImageReadable(m2, info)
    requires SameOn(m1, m2, info.programBuffer, info.programBuffer + info.teSize)
    requires SameOn(m1, m2, info.teBuffer - 12, info.teBuffer + info.fileSize)
    ensures FindProtocol(m1, info, k, key) == FindProtocol(m2, info, k, key)
  {
    GuidSearchFrame(m1, m2, info, key, 0);
    var g := GuidSearch(m1, info, key, 0);
    if g.Some? {
      FirstMatchFrame(m1, m2, info, k, g.value % 0x1_0000_0000);
      var o := FirstMatch(m1, info, k, g.value % 0x1_0000_0000);
      if o.Some? {
        IdiomAtFrame(m1, m2, info, k, g.value % 0x1_0000_0000, o.value);
      }
    }
  }

  /** A GUID that is not in the GUID range gives -EFI_NOT_FOUND, whatever the image holds. */
  lemma MissingGuidIsNotFound(mem: Memory, info: TeInfo, k: Idiom, key: Guid)
    requires ProgramReadable(mem, info) && ImageReadable(mem, info)
    requires GuidSearch(mem, info, key, 0).None?
    ensures FindProtocol(mem, info, k, key) == NotFoundAddress
  {
  }

  /**
   * The look-back ADRP is parsed with pc = o, not with its own address o - d:
   * the page it yields is one page too high exactly when o lies in the first
   * d bytes of a page.
   */
  lemma LookBackPcQuirk(f: Arm64Adrp, o: nat, d: nat)
    requires AdrpInRange(f) && 0 < d <= 0x1000 && d <= o < 0x1_0000_0000
    ensures ParseAdrp(f, o).rdAfterExecution ==
            ParseAdrp(f, o - d).rdAfterExecution + (if o % 0x1000 < d then 0x1000 else 0)
  {
    var q, r := o / 0x1000, o % 0x1000;
    assert o == q * 0x1000 + r;
    if r < d {
      assert o - d == (q - 1) * 0x1000 + (0x1000 + r - d);
      assert (o - d) / 0x1000 == q - 1;
    } else {
      assert o - d == q * 0x1000 + (r - d);
      assert (o - d) / 0x1000 == q;
    }
  }

  /**
   * When the look-back ADRP's immediate is not negative, the look-back ADRP,
   * d bytes before the loop counter pc, lies in the same page, and the
   * look-back ADD is a 64-bit ADD of an unshifted imm12 to the ADRP's
   * register, the address found is what the look-back ADRP/ADD pair
   * computes when executed at its own address, plus the load address.
   */
  lemma LookBackAgainstArchitecture(w: IdiomWords, pc: nat, load: nat, d: nat)
    requires pc < 0x1_0000_0000 && !ImmediateNegative(DecodeAdrp(w.backAdrp))
    requires 0 < d <= pc % 0x1000
    requires AddSh(w.backAdd) == 0 && AddSf(w.backAdd) == 1 && AddRn(w.backAdd) == AdrpRd(w.backAdrp)
    ensures LookBackAddress(w, pc, load) ==
            Wrap64(ArchitecturalAdrp(DecodeAdrp(w.backAdrp), pc - d) + AddImm12(w.backAdd) + load)
  {
    LookBackPage(DecodeAdrp(w.backAdrp), pc, d);
  }

  /** The look-back ADRP parsed with pc gives the architectural page of pc - d. */
  lemma LookBackPage(back: Arm64Adrp, pc: nat, d: nat)
    requires AdrpInRange(back) && pc < 0x1_0000_0000 && !ImmediateNegative(back)
    requires 0 < d <= pc % 0x1000
    ensures ParseAdrp(back, pc).rdAfterExecution == ArchitecturalAdrp(back, pc - d)
  {
    LookBackPcQuirk(back, pc, d);
    ParseAdrpNonNegative(back, pc - d);
  }

  // ---- The GUID-not-found checks as written ----

  /**
   * guid_offset as the source computes it: the UINTN result of
   * find_guid_in_buffer stored in a UINT32, so -EFI_NOT_FOUND becomes
   * 0xFFFFFFF2.
   */
  function GuidOffsetAsWritten(mem: Memory, info: TeInfo, key: Guid): (g: nat)
    requires ProgramReadable(mem, info)
    ensures g < 0x1_0000_0000
    ensures GuidSearch(mem, info, key, 0).None? ==> g == NotFoundOffset
  {
    match GuidSearch(mem, info, key, 0)
    case None => NotFoundOffset
    case Some(i) => i % 0x1_0000_0000
  }

  /**
   * The check as written: `guid_offset < 0` on a UINT32 in
   * find_protocol_scheduler, which is never true, and `guid_offset == -1`
   * in find_protocol_xbldt, which compares with 0xFFFFFFFF.
   */
  predicate GuardFiresAsWritten(k: Idiom, guidOffset: nat)
    ensures GuardFiresAsWritten(k, guidOffset) ==> guidOffset != NotFoundOffset
  {
    match k
    case Scheduler => false
    case Table => guidOffset == 0xFFFF_FFFF
  }

  /** find_protocol_scheduler and find_protocol_xbldt exactly as written. */
  function FindProtocolAsWritten(mem: Memory, info: TeInfo, k: Idiom, key: Guid): (addr: nat)
    requires ProgramReadable(mem, info) && ImageReadable(mem, info)
    ensures addr < 0x1_0000_0000_0000_0000
  {
    var g := GuidOffsetAsWritten(mem, info, key);
    if GuardFiresAsWritten(k, g) then NotFoundAddress
    else
      match Resolve(mem, info, k, g)
      case None => NotFoundAddress
      case Some(a) => a
  }

  /**
   * The check as written never fires on a missing GUID: the scan then runs
   * for an ADRP/ADD pair that computes 0xFFFFFFF2. When the GUID is found
   * (at an offset other than 0xFFFFFFFF for the table search) the two
   * versions agree.
   */
  lemma AsWrittenAgainstCorrected(mem: Memory, info: TeInfo, k: Idiom, key: Guid)
    requires ProgramReadable(mem, info) && ImageReadable(mem, info)
    ensures GuidSearch(mem, info, key, 0).None? ==>
      FindProtocolAsWritten(mem, info, k, key) == if Resolve(mem, info, k, NotFoundOffset).Some?
        then Resolve(mem, info, k, NotFoundOffset).value else NotFoundAddress
    ensures GuidSearch(mem, info, key, 0).Some? && (k == Scheduler || GuidSearch(mem, info, key, 0).value % 0x1_0000_0000 != 0xFFFF_FFFF) ==>
      FindProtocolAsWritten(mem, info, k, key) == FindProtocol(mem, info, k, key)
  {
  }

  // ---- A concrete image on which the unchecked not-found value is matched ----

  function Zeros(n: nat): (s: seq<Byte>)
    ensures |s| == n && forall a :: 0 <= a < n ==> s[a] == 0
  {
    seq(n, _ => 0)
  }

  /** ADRP x0 with immediate 0xFFFFF (so imm = 0xFFFFF000 after the 32-bit shift). */
  const WitnessAdrp: Word := 0xF07F_FFE0
  /** ADD x0, x0, #0. */
  const WitnessAdd0: Word := 0x1100_0000
  /** ADD x0, x0, #0xFF2. */
  const WitnessAddFf2: Word := 0x113F_C800

  /** How the witness words decode. */
  lemma WitnessWordsDecode()
    ensures ValidateAdrp(WitnessAdrp) && ValidateAdd(WitnessAdd0) && ValidateAdd(WitnessAddFf2)
    ensures AddImm12(WitnessAdd0) == 0 && AddImm12(WitnessAddFf2) == 0xFF2
    ensures ParseAdrp(DecodeAdrp(WitnessAdrp), 0).rdAfterExecution == 0xFFFF_F000
    ensures ParseAdrp(DecodeAdrp(WitnessAdrp), 4).rdAfterExecution == 0xFFFF_F000
  {
    assert DecodeAdrp(WitnessAdrp) == Arm64Adrp(0, 0x3_FFFF, 16, 3, 1);
  }

  /** The 72-byte witness memory: TE buffer at 12, four instruction words, zeros elsewhere. */
  function WitnessMemory(): (mem: Memory)
    ensures |mem| == 72
  {
    Zeros(12) + LeBytes32(WitnessAdrp) + LeBytes32(WitnessAdrp) + LeBytes32(WitnessAdd0) +
    LeBytes32(WitnessAddFf2) + Zeros(44)
  }

  lemma WitnessMemoryWords()
    ensures ReadU32(WitnessMemory(), 8) == 0 && ReadU32(WitnessMemory(), 28) == 0 && ReadU32(WitnessMemory(), 32) == 0
    ensures ReadU32(WitnessMemory(), 12) == WitnessAdrp && ReadU32(WitnessMemory(), 16) == WitnessAdrp
    ensures ReadU32(WitnessMemory(), 20) == WitnessAdd0 && ReadU32(WitnessMemory(), 24) == WitnessAddFf2
  {
    var mem := WitnessMemory();
    assert mem[12..16] == LeBytes32(WitnessAdrp);
    assert mem[16..20] == LeBytes32(WitnessAdrp);
    assert mem[20..24] == LeBytes32(WitnessAdd0);
    assert mem[24..28] == LeBytes32(WitnessAddFf2);
    ReadU32OfLeBytes(mem, 12, WitnessAdrp);
    ReadU32OfLeBytes(mem, 16, WitnessAdrp);
    ReadU32OfLeBytes(mem, 20, WitnessAdd0);
    ReadU32OfLeBytes(mem, 24, WitnessAddFf2);
    assert mem[8] == 0 && mem[9] == 0 && mem[10] == 0 && mem[11] == 0;
    assert mem[28] == 0 && mem[29] == 0 && mem[30] == 0 && mem[31] == 0;
    assert mem[32] == 0 && mem[33] == 0 && mem[34] == 0 && mem[35] == 0;
  }

  /** The checks of a scan step on those words, looking for 0xFFFFFFF2. */
  lemma WitnessFirstStep(load: nat)
    ensures MatchWords(IdiomWords(WitnessAdrp, WitnessAdd0, 0, WitnessAdrp), 0, NotFoundOffset, load).None?
  {
    WitnessWordsDecode();
    var w := IdiomWords(WitnessAdrp, WitnessAdd0, 0, WitnessAdrp);
    assert ValidateAdrp(w.adrp);
    assert ValidateAdd(w.add);
    assert ParseAdrp(DecodeAdrp(w.adrp), 0).rdAfterExecution == 0xFFFF_F000;
    assert AddImm12(w.add) == 0;
    assert (0xFFFF_F000 + 0) % 0x1_0000_0000 != NotFoundOffset;
  }

  lemma WitnessSecondStep(load: nat)
    requires load < 0x1_0000_0000
    ensures MatchWords(IdiomWords(WitnessAdrp, WitnessAddFf2, WitnessAdrp, WitnessAdd0), 4, NotFoundOffset, load) ==
            Some(0xFFFF_F000 + load)
  {
    WitnessWordsDecode();
    var w := IdiomWords(WitnessAdrp, WitnessAddFf2, WitnessAdrp, WitnessAdd0);
    var here := ParseAdrp(DecodeAdrp(w.adrp), 4).rdAfterExecution;
    assert here + AddImm12(w.add) == 0xFFFF_FFF2;
    MatchWordsFound(w, 4, NotFoundOffset, load);
    var back := ParseAdrp(DecodeAdrp(w.backAdrp), 4).rdAfterExecution;
    assert back + AddImm12(w.backAdd) == 0xFFFF_F000;
    LookBackAddressInRange(w, 4, load);
  }

  /** A step whose four words are valid and whose first pair computes guidOffset finds the look-back address. */
  lemma MatchWordsFound(w: IdiomWords, pc: nat, guidOffset: nat, load: nat)
    requires pc < 0x1_0000_0000
    requires ValidateAdrp(w.adrp) && ValidateAdd(w.add) && ValidateAdrp(w.backAdrp) && ValidateAdd(w.backAdd)
    requires (ParseAdrp(DecodeAdrp(w.adrp), pc).rdAfterExecution + AddImm12(w.add)) % 0x1_0000_0000 == guidOffset
    ensures MatchWords(w, pc, guidOffset, load) == Some(LookBackAddress(w, pc, load))
  {
  }

  /** Below 2^64 the look-back address is the plain sum. */
  lemma LookBackAddressInRange(w: IdiomWords, pc: nat, load: nat)
    requires pc < 0x1_0000_0000
    requires ParseAdrp(DecodeAdrp(w.backAdrp), pc).rdAfterExecution + AddImm12(w.backAdd) + load < 0x1_0000_0000_0000_0000
    ensures LookBackAddress(w, pc, load) == ParseAdrp(DecodeAdrp(w.backAdrp), pc).rdAfterExecution + AddImm12(w.backAdd) + load
  {
  }

  /** A scan step is decided by the words it loads and the load address alone. */
  lemma IdiomAtFromWords(mem: Memory, info: TeInfo, k: Idiom, guidOffset: nat, o: nat, w: IdiomWords, load: nat)
    requires ImageReadable(mem, info) && o + ScanMargin < info.fileSize
    requires WordsAt(mem, info, k, o) == w && LoadAddress(mem, info.teBuffer) == load
    ensures IdiomAt(mem, info, k, guidOffset, o) == MatchWords(w, Pc(o), guidOffset, load)
  {
  }

  /** The words the witness memory holds at the addresses the scan loads. */
  predicate WitnessLayout(mem: Memory)
  {
    |mem| == 72 && ReadU32(mem, 8) == 0 && ReadU32(mem, 12) == WitnessAdrp && ReadU32(mem, 16) == WitnessAdrp &&
    ReadU32(mem, 20) == WitnessAdd0 && ReadU32(mem, 24) == WitnessAddFf2 && ReadU32(mem, 28) == 0 && ReadU32(mem, 32) == 0
  }

  /** On any memory laid out so, what the scan loads at offsets 0 and 4. */
  lemma LayoutWords(mem: Memory)
    requires WitnessLayout(mem)
    ensures ImageReadable(mem, TeInfo(12, 12, 16, 60)) && ProgramReadable(mem, TeInfo(12, 12, 16, 60))
    ensures WordsAt(mem, TeInfo(12, 12, 16, 60), Scheduler, 0) == IdiomWords(WitnessAdrp, WitnessAdd0, 0, WitnessAdrp)
    ensures WordsAt(mem, TeInfo(12, 12, 16, 60), Scheduler, 4) == IdiomWords(WitnessAdrp, WitnessAddFf2, WitnessAdrp, WitnessAdd0)
    ensures LoadAddress(mem, 12) == WitnessAddFf2
  {
  }

  lemma LayoutFirstStep(mem: Memory)
    requires ImageReadable(mem, TeInfo(12, 12, 16, 60))
    requires WordsAt(mem, TeInfo(12, 12, 16, 60), Scheduler, 0) == IdiomWords(WitnessAdrp, WitnessAdd0, 0, WitnessAdrp)
    requires LoadAddress(mem, 12) == WitnessAddFf2
    ensures IdiomAt(mem, TeInfo(12, 12, 16, 60), Scheduler, NotFoundOffset, 0).None?
  {
    IdiomAtFromWords(mem, TeInfo(12, 12, 16, 60), Scheduler, NotFoundOffset, 0,
                     IdiomWords(WitnessAdrp, WitnessAdd0, 0, WitnessAdrp), WitnessAddFf2);
    WitnessFirstStep(WitnessAddFf2);
  }

  lemma LayoutSecondStep(mem: Memory)
    requires ImageReadable(mem, TeInfo(12, 12, 16, 60))
    requires WordsAt(mem, TeInfo(12, 12, 16, 60), Scheduler, 4) == IdiomWords(WitnessAdrp, WitnessAddFf2, WitnessAdrp, WitnessAdd0)
    requires LoadAddress(mem, 12) == WitnessAddFf2
    ensures IdiomAt(mem, TeInfo(12, 12, 16, 60), Scheduler, NotFoundOffset, 4) == Some(0xFFFF_F000 + WitnessAddFf2)
  {
    IdiomAtFromWords(mem, TeInfo(12, 12, 16, 60), Scheduler, NotFoundOffset, 4,
                     IdiomWords(WitnessAdrp, WitnessAddFf2, WitnessAdrp, WitnessAdd0), WitnessAddFf2);
    assert Pc(4) == 4;
    WitnessSecondStep(WitnessAddFf2);
  }

  /** On any memory laid out so, the scan for 0xFFFFFFF2 stops at offset 4. */
  lemma LayoutResolves(mem: Memory)
    requires WitnessLayout(mem)
    ensures ImageReadable(mem, TeInfo(12, 12, 16, 60)) && ProgramReadable(mem, TeInfo(12, 12, 16, 60))
    ensures Resolve(mem, TeInfo(12, 12, 16, 60), Scheduler, NotFoundOffset) == Some(0xFFFF_F000 + WitnessAddFf2)
  {
    LayoutWords(mem);
    LayoutFirstStep(mem);
    LayoutSecondStep(mem);
    var info := TeInfo(12, 12, 16, 60);
    var p := Matches(mem, info, Scheduler, NotFoundOffset);
    assert !p(0) && p(4);
    assert FirstStep(p, 4, ScanBound(info)) == Some(4);
    assert FirstMatch(mem, info, Scheduler, NotFoundOffset) == Some(4);
  }

  /**
   * On the witness memory, with TEBuffer and programBuffer at 12, teSize 16
   * and a key other than the 16 program bytes, so that the GUID is missing
   * from a range the loop bound really covers, the ADRP at offset 4 and the ADD at offset 12 compute 0xFFFFF000 + 0xFF2 =
   * 0xFFFFFFF2, the truncated not-found value, and the look-back ADRP at 0
   * and ADD at 8 are valid: the scheduler search as written returns an
   * address for a GUID that is not there, where the corrected one returns
   * -EFI_NOT_FOUND.
   */
  lemma SchedulerMatchesMissingGuid(key: Guid)
    requires key != WitnessMemory()[12..28]
    ensures var mem, info := WitnessMemory(), TeInfo(12, 12, 16, 60);
      ProgramReadable(mem, info) && ImageReadable(mem, info) &&
      GuidSearch(mem, info, key, 0).None? &&
      FindProtocolAsWritten(mem, info, Scheduler, key) == 0xFFFF_F000 + WitnessAddFf2 &&
      FindProtocol(mem, info, Scheduler, key) == NotFoundAddress
  {
    WitnessMemoryWords();
    LayoutResolves(WitnessMemory());
    AsWrittenAgainstCorrected(WitnessMemory(), TeInfo(12, 12, 16, 60), Scheduler, key);
  }
}
