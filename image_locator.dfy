/**
 * FindTeAddr: find the XBLCore.te image in the previous UEFI firmware
 * volume and the first program word after its headers.
 */
module ImageLocator {
  import opened Wrappers
  import opened TeImage

  /** A memory-map area: base address and length in bytes. */
  datatype Region = Region(address: nat, length: nat)

  /**
   * LocateMemoryMapAreaByName, a platform memory-map lookup taken as an
   * oracle from an area name to the area, if the map has one.
   */
  type RegionLookup = string -> Option<Region>

  const FdReservedI: string := "FD Reserved I"
  const UefiFd: string := "UEFI FD"

  /** The scan starts this far into the area, past data that is of no use. */
  const SkipBytes: nat := 0x1000

  datatype LocateError =
    | RegionNotFound     // neither area is in the memory map
    | SignatureNotFound  // no word of the scanned range is the TE signature
    | OutOfMemory        // a load would fall past the end of memory

  /** "FD Reserved I" when the map has it, otherwise "UEFI FD". */
  function SelectRegion(lookup: RegionLookup): (r: Option<Region>)
  {
    if lookup(FdReservedI).Some? then lookup(FdReservedI) else lookup(UefiFd)
  }

  /**
   * The signature loop from step i: the words at start + i, start + i + 4, ...
   * while the step is below length, up to the first that is the signature.
   */
  function MagicSearch(mem: Memory, start: nat, length: nat, i: nat): (r: Result<nat, LocateError>)
    ensures r.Ok? ==> start + i <= r.value < start + length && (r.value - start - i) % 4 == 0
    ensures r.Ok? ==> r.value + 4 <= |mem| && ReadU32(mem, r.value) == TeSignature
    ensures r != Err(RegionNotFound)
    decreases length - i
  {
    if i >= length then Err(SignatureNotFound)
    else if start + i + 4 > |mem| then Err(OutOfMemory)
    else if ReadU32(mem, start + i) == TeSignature then Ok(start + i)
    else MagicSearch(mem, start, length, i + 4)
  }

  /**
   * The padding loop from p: the first word at p, p + 4, ... that is not
   * zero, or None when the zero words run to the end of memory.
   */
  function SkipPadding(mem: Memory, p: nat): (r: Option<nat>)
    ensures r.Some? ==> p <= r.value && (r.value - p) % 4 == 0
    ensures r.Some? ==> r.value + 4 <= |mem| && ReadU32(mem, r.value) != 0
    decreases |mem| - p
  {
    if p + 4 > |mem| then None
    else if ReadU32(mem, p) != 0 then Some(p)
    else SkipPadding(mem, p + 4)
  }

  /** Where the section headers end: the TE header and NumberOfSections section headers. */
  function HeadersEnd(mem: Memory, te: nat): (p: nat)
    requires te + TeHeaderSize <= |mem|
    ensures te + TeHeaderSize <= p <= te + TeHeaderSize + 40 * 0xFF
  {
    te + TeHeaderSize + 40 * NumberOfSections(mem, te)
  }

  /**
   * The result of FindTeAddr: the TE_INFO_STRUCT it fills in (teSize and
   * fileSize are left at 0), or why it stops.
   */
  function LocateTe(mem: Memory, lookup: RegionLookup): (r: Result<TeInfo, LocateError>)
    ensures r.Ok? ==> r.value.teBuffer >= SkipBytes && r.value.teSize == 0 && r.value.fileSize == 0
    ensures r.Ok? ==> r.value.teBuffer + TeHeaderSize <= |mem| && ReadU32(mem, r.value.teBuffer) == TeSignature
    ensures r.Ok? ==> var p0 := HeadersEnd(mem, r.value.teBuffer);
      p0 <= r.value.programBuffer && (r.value.programBuffer - p0) % 4 == 0 &&
      r.value.programBuffer + 4 <= |mem| && ReadU32(mem, r.value.programBuffer) != 0
  {
    match SelectRegion(lookup)
    case None => Err(RegionNotFound)
    case Some(region) =>
      match MagicSearch(mem, region.address + SkipBytes, region.length, 0)
      case Err(e) => Err(e)
      case Ok(te) =>
        if te + TeHeaderSize > |mem| then Err(OutOfMemory)
        else
          match SkipPadding(mem, HeadersEnd(mem, te))
          case None => Err(OutOfMemory)
          case Some(p) => Ok(TeInfo(te, p, 0, 0))
  }

  /** FindTeAddr, with its two loops. */
  method FindTeAddr(mem: Memory, lookup: RegionLookup) returns (r: Result<TeInfo, LocateError>)
    ensures r == LocateTe(mem, lookup)
  {
    var region := lookup(FdReservedI);
    if region.None? {
      region := lookup(UefiFd);
      if region.None? {
        return Err(RegionNotFound);
      }
    }
    var start := region.value.address + SkipBytes;
    var length := region.value.length;
    var i := 0;
    var found := false;
    while i < length
      invariant MagicSearch(mem, start, length, i) == MagicSearch(mem, start, length, 0)
      decreases length - i
    {
      if start + i + 4 > |mem| {
        return Err(OutOfMemory);
      }
      if ReadU32(mem, start + i) == TeSignature {
        found := true;
        break;
      }
      i := i + 4;
    }
    if !found {
      return Err(SignatureNotFound);
    }
    var te := start + i;
    if te + TeHeaderSize > |mem| {
      return Err(OutOfMemory);
    }
    var p := HeadersEnd(mem, te);
    while p + 4 <= |mem| && ReadU32(mem, p) == 0
      invariant SkipPadding(mem, p) == SkipPadding(mem, HeadersEnd(mem, te))
      decreases |mem| - p
    {
      p := p + 4;
    }
    if p + 4 > |mem| {
      return Err(OutOfMemory);
    }
    return Ok(TeInfo(te, p, 0, 0));
  }

  /** The word at a can be loaded and is not the TE signature. */
  predicate NoSignatureAt(mem: Memory, a: nat)
  {
    a + 4 <= |mem| && ReadU32(mem, a) != TeSignature
  }

  /**
   * The signature found is the first aligned word of the scanned range that
   * holds it; SignatureNotFound means every aligned word of the range was
   * loaded and none holds it.
   */
  lemma {:induction false} MagicSearchFirst(mem: Memory, start: nat, length: nat, i: nat)
    ensures MagicSearch(mem, start, length, i).Ok? ==>
      forall a :: start + i <= a < MagicSearch(mem, start, length, i).value && (a - start - i) % 4 == 0 ==>
        NoSignatureAt(mem, a)
    ensures MagicSearch(mem, start, length, i) == Err(SignatureNotFound) ==>
      forall a :: start + i <= a < start + length && (a - start - i) % 4 == 0 ==>
        NoSignatureAt(mem, a)
    decreases length - i
  {
    if i < length && start + i + 4 <= |mem| && ReadU32(mem, start + i) != TeSignature {
      MagicSearchFirst(mem, start, length, i + 4);
      var r := MagicSearch(mem, start, length, i);
      if r.Ok? || r == Err(SignatureNotFound) {
        var last := if r.Ok? then r.value else start + length;
        forall a | start + i <= a < last && (a - start - i) % 4 == 0
          ensures NoSignatureAt(mem, a)
        {
          if a != start + i {
            var d := a - start - i;
            assert d == 4 * (d / 4) && d / 4 >= 1;
            assert start + i + 4 <= a && (a - start - (i + 4)) % 4 == 0;
          }
        }
      }
    }
  }

  /** When the whole range can be loaded, the signature loop never runs past the end of memory. */
  lemma {:induction false} MagicSearchInMemory(mem: Memory, start: nat, length: nat, i: nat)
    requires start + length + 3 <= |mem|
    ensures MagicSearch(mem, start, length, i) != Err(OutOfMemory)
    decreases length - i
  {
    if i < length && ReadU32(mem, start + i) != TeSignature {
      MagicSearchInMemory(mem, start, length, i + 4);
    }
  }

  /**
   * The padding loop passes over zero words only; None means every aligned
   * word from p to the end of memory is zero.
   */
  lemma {:induction false} SkipPaddingSkipsZeros(mem: Memory, p: nat)
    ensures SkipPadding(mem, p).Some? ==>
      forall a :: p <= a < SkipPadding(mem, p).value && (a - p) % 4 == 0 ==> ReadU32(mem, a) == 0
    ensures SkipPadding(mem, p).None? ==>
      forall a :: p <= a && a + 4 <= |mem| && (a - p) % 4 == 0 ==> ReadU32(mem, a) == 0
    decreases |mem| - p
  {
    if p + 4 <= |mem| && ReadU32(mem, p) == 0 {
      SkipPaddingSkipsZeros(mem, p + 4);
    }
  }

  /**
   * "UEFI FD" is looked up only when "FD Reserved I" is missing, and the
   * search fails with RegionNotFound, filling in nothing, when both are.
   */
  lemma RegionFallback(mem: Memory, lookup: RegionLookup)
    ensures lookup(FdReservedI).Some? ==> SelectRegion(lookup) == lookup(FdReservedI)
    ensures lookup(FdReservedI).None? ==> SelectRegion(lookup) == lookup(UefiFd)
    ensures LocateTe(mem, lookup) == Err(RegionNotFound) <==> lookup(FdReservedI).None? && lookup(UefiFd).None?
  {
  }

  /**
   * When the image is found, TEBuffer is the lowest address base + 0x1000 + i,
   * with i a multiple of 4 below the area's length, whose word is the TE
   * signature.
   */
  lemma LocatedImageIsFirstSignature(mem: Memory, lookup: RegionLookup)
    requires LocateTe(mem, lookup).Ok?
    ensures SelectRegion(lookup).Some?
    ensures var region, te := SelectRegion(lookup).value, LocateTe(mem, lookup).value.teBuffer;
      region.address + SkipBytes <= te < region.address + SkipBytes + region.length &&
      (te - region.address - SkipBytes) % 4 == 0 &&
      forall a :: region.address + SkipBytes <= a < te && (a - region.address - SkipBytes) % 4 == 0 ==>
        NoSignatureAt(mem, a)
  {
    var region := SelectRegion(lookup).value;
    MagicSearchFirst(mem, region.address + SkipBytes, region.length, 0);
  }

  /**
   * programBuffer is the first word at or after the section headers, in
   * steps of 4, that is not zero.
   */
  lemma ProgramStartSkipsPadding(mem: Memory, lookup: RegionLookup)
    requires LocateTe(mem, lookup).Ok?
    ensures var info := LocateTe(mem, lookup).value; var p0 := HeadersEnd(mem, info.teBuffer);
      forall a :: p0 <= a < info.programBuffer && (a - p0) % 4 == 0 ==> ReadU32(mem, a) == 0
  {
    var info := LocateTe(mem, lookup).value;
    SkipPaddingSkipsZeros(mem, HeadersEnd(mem, info.teBuffer));
  }

  /** A range in which every aligned word can be loaded and none is the signature gives SignatureNotFound. */
  lemma {:induction false} MagicSearchAbsent(mem: Memory, start: nat, length: nat, i: nat)
    requires forall a :: start + i <= a < start + length && (a - start - i) % 4 == 0 ==> NoSignatureAt(mem, a)
    ensures MagicSearch(mem, start, length, i) == Err(SignatureNotFound)
    decreases length - i
  {
    if i < length {
      assert NoSignatureAt(mem, start + i);
      forall a | start + i + 4 <= a < start + length && (a - start - (i + 4)) % 4 == 0
        ensures NoSignatureAt(mem, a)
      {
        assert (a - start - i) % 4 == 0;
      }
      MagicSearchAbsent(mem, start, length, i + 4);
    }
  }

  /**
   * SignatureNotFound is reported exactly when every aligned word of the
   * scanned range can be loaded and none is the signature.
   */
  lemma MissingSignatureIsReported(mem: Memory, lookup: RegionLookup)
    requires SelectRegion(lookup).Some?
    ensures var region := SelectRegion(lookup).value; var start := region.address + SkipBytes;
      LocateTe(mem, lookup) == Err(SignatureNotFound) <==>
        forall a :: start <= a < start + region.length && (a - start) % 4 == 0 ==> NoSignatureAt(mem, a)
  {
    var region := SelectRegion(lookup).value;
    var start := region.address + SkipBytes;
    MagicSearchFirst(mem, start, region.length, 0);
    if forall a :: start <= a < start + region.length && (a - start) % 4 == 0 ==> NoSignatureAt(mem, a) {
      MagicSearchAbsent(mem, start, region.length, 0);
    }
  }

  // ---- FindTeAddr as written ----

  /**
   * FindTeAddr as written: when no word of the range is the signature the
   * loop leaves TEBuffer at the 0 the caller put there, and the function
   * goes on to read a header at address 0 and returns EFI_SUCCESS. It never
   * reports a missing signature.
   */
  function LocateTeAsWritten(mem: Memory, lookup: RegionLookup): (r: Result<TeInfo, LocateError>)
    ensures r != Err(SignatureNotFound)
  {
    match SelectRegion(lookup)
    case None => Err(RegionNotFound)
    case Some(region) =>
      var found := MagicSearch(mem, region.address + SkipBytes, region.length, 0);
      if found == Err(OutOfMemory) then Err(OutOfMemory)
      else
        var te := if found.Ok? then found.value else 0;
        if te + TeHeaderSize > |mem| then Err(OutOfMemory)
        else
          match SkipPadding(mem, HeadersEnd(mem, te))
          case None => Err(OutOfMemory)
          case Some(p) => Ok(TeInfo(te, p, 0, 0))
  }

  /**
   * The two agree whenever the signature is found or the area is missing;
   * on a missing signature the version as written succeeds with TEBuffer 0
   * or runs out of memory.
   */
  lemma LocateTeAsWrittenAgainstCorrected(mem: Memory, lookup: RegionLookup)
    ensures LocateTe(mem, lookup) != Err(SignatureNotFound) ==> LocateTeAsWritten(mem, lookup) == LocateTe(mem, lookup)
    ensures LocateTe(mem, lookup) == Err(SignatureNotFound) ==>
      LocateTeAsWritten(mem, lookup) == Err(OutOfMemory) ||
      (LocateTeAsWritten(mem, lookup).Ok? && LocateTeAsWritten(mem, lookup).value.teBuffer == 0)
  {
    if SelectRegion(lookup).Some? {
      var region := SelectRegion(lookup).value;
      var found := MagicSearch(mem, region.address + SkipBytes, region.length, 0);
      if found.Ok? {
        var te := found.value;
        assert LocateTeAsWritten(mem, lookup) == LocateTe(mem, lookup);
      } else {
        assert LocateTe(mem, lookup) == Err(found.error);
        if found.error == OutOfMemory {
          assert LocateTeAsWritten(mem, lookup) == Err(OutOfMemory);
        }
      }
    }
  }

  /** A memory map whose every area has length 0. */
  function EmptyAreas(name: string): Option<Region>
  {
    Some(Region(0, 0))
  }

  /** 44 bytes: zeros, then a non-zero word at 40. */
  function NoSignatureMemory(): (mem: Memory)
    ensures |mem| == 44
  {
    seq(40, _ => 0) + [1, 0, 0, 0]
  }

  /**
   * With an empty area there is no signature; the version as written still
   * succeeds, with TEBuffer 0 and programBuffer past a header read at 0.
   */
  lemma MissingSignatureAsWritten()
    ensures LocateTe(NoSignatureMemory(), EmptyAreas) == Err(SignatureNotFound)
    ensures LocateTeAsWritten(NoSignatureMemory(), EmptyAreas) == Ok(TeInfo(0, 40, 0, 0))
  {
    var mem := NoSignatureMemory();
    assert SelectRegion(EmptyAreas) == Some(Region(0, 0));
    assert MagicSearch(mem, SkipBytes, 0, 0) == Err(SignatureNotFound);
    assert mem[4] == 0;
    assert HeadersEnd(mem, 0) == 40;
    assert mem[40] == 1 && mem[41] == 0 && mem[42] == 0 && mem[43] == 0;
    assert ReadU32(mem, 40) == 1;
    assert SkipPadding(mem, 40) == Some(40);
  }
}
