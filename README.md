# QcSecProtocolsLocatorSecLib in Dafny

This project models the SEC-phase library that recovers two addresses from
the XBLCore.te image that the previous boot stage leaves in memory. The
first is the address of the scheduler interface. The second is the address
of the XBL device-tree operations table. The library works in five stages:

1. **`FindTeAddr`** reads the memory map. It takes the area "FD Reserved I",
   or "UEFI FD" when that one is missing.
   - It scans the area from `base + 0x1000` in 4-byte steps for the TE
     signature word `0xAA645A56`.
   - It skips the 40-byte TE header and `NumberOfSections` 40-byte section
     headers.
   - It then steps over zero padding words to the first program word.
2. **`find_guid_in_buffer`** finds a 16-byte GUID in the program bytes.
3. **`validate_adrp`, `validate_add` and `parse_adrp`**, on top of the
   header's `ADRP_*`/`ADD_*` field macros, recognise the A64 ADRP and
   ADD (immediate) encodings. They also compute the page address an ADRP
   leaves in its register.
4. **`find_protocol_scheduler` and `find_protocol_xbldt`** scan the image
   for an ADRP/ADD pair that computes the GUID's offset. They then build the
   protocol's absolute address from a second ADRP/ADD pair next to it, plus
   `BaseOfCode + ImageBase`.
5. **`InitProtocolFinder`** runs the search once. It caches both results in
   two statics and hands them out through two optional pointers.

Modules, one per stage plus two shared ones:

| file | module | what it holds |
|---|---|---|
| `wrappers.dfy` | `Wrappers` | `Option` and `Result` |
| `arm64.dfy` | `Arm64` | the field macros, the `Arm64Adrp`/`Arm64Add` records, decode/encode round trips |
| `decoder.dfy` | `Decoder` | `validate_adrp`, `validate_add`, `parse_adrp`, and the architectural ADRP they are compared with |
| `te_image.dfy` | `TeImage` | memory as bytes, little-endian loads, the TE header fields used, `TE_INFO_STRUCT` |
| `image_locator.dfy` | `ImageLocator` | `FindTeAddr` (a method with both loops) and its specification `LocateTe` |
| `signature_scanner.dfy` | `SignatureScanner` | `find_guid_in_buffer` (a method) and its specification `GuidSearch` |
| `address_resolver.dfy` | `AddressResolver` | the two idiom scans (methods) and their specification `FindProtocol` |
| `protocol_finder.dfy` | `ProtocolFinder` | `InitProtocolFinder` as a class holding the two statics, and its specification `Search` |

How the model represents the system:

- **Memory** is a `seq` of bytes indexed by absolute address. A 32-bit load
  is little-endian (`ReadU32`).
- **Machine words** are integers below 2^32. The C code's `UINT32` and
  `UINT64` truncations are written out as `% 2^32` and `% 2^64`.
- **Loop methods.** Each C loop is a Dafny method with a `while` loop. Its
  `ensures` ties the result to a recursive specification function
  (`MagicSearch`, `SkipPadding`, `GuidSearch`, `FirstStep`). The lemmas
  prove what the source promises about those functions.
- **The cache.** `InitProtocolFinder` is a method of class `Finder`, whose
  fields are `ScheIntrAddr` and `SecDTOpsAddr`. The caller's
  `EFI_PHYSICAL_ADDRESS *` pointers are nullable `AddressCell` objects. The
  method's `ensures` gives the new fields and the values written in terms
  of `Search(old(State()), ...)`.

Three behaviours of the code that the model keeps:

- **One cache test for both addresses.** The guard at
  QcSecProtocolsLocatorSecLib.c:236 tests
  `ScheIntrAddr != 0 || SecDTOpsAddr != 0`. So once either address is set,
  neither search runs again (`TableOnlyStarvesScheduler`).
- **Not-found results are cached.** A search that finds nothing stores
  `-EFI_NOT_FOUND` in its static (c:254, c:262). That value is not 0, so the
  failed search is never repeated (`FailedSearchIsCached`).
- **The ADRP immediate is never sign-extended.** `parse_adrp` (c:122)
  shifts the 21-bit immediate in 32 bits. The model keeps that
  (`ParseAdrp`) and proves how far it is from the architecture
  (`ParseAdrpAgainstArchitecture`).

On the two not-found paths the model is built on the corrected behaviour.
The code as written is modelled beside it, and both are listed under
"## Findings":

- `FindTeAddr` with no signature (c:41-51);
- the two GUID guards (c:131-135, c:181-185).

## Model

| member | source | states |
|---|---|---|
| Arm64.AdrpRd | Platforms/SurfaceDuoFamilyPkg/Library/QcSecProtocolsLocatorSecLib/QcSecProtocolsLocatorSecLib.h:41 | `ADRP_RD` is at most 31 |
| Arm64.AdrpImmhi | Platforms/SurfaceDuoFamilyPkg/Library/QcSecProtocolsLocatorSecLib/QcSecProtocolsLocatorSecLib.h:42 | `ADRP_IMMHI` is at most 0x7FFFF |
| Arm64.AdrpOp2 | Platforms/SurfaceDuoFamilyPkg/Library/QcSecProtocolsLocatorSecLib/QcSecProtocolsLocatorSecLib.h:43 | `ADRP_OP2` is at most 31 |
| Arm64.AdrpImmlo | Platforms/SurfaceDuoFamilyPkg/Library/QcSecProtocolsLocatorSecLib/QcSecProtocolsLocatorSecLib.h:44 | `ADRP_IMMLO` is at most 3 |
| Arm64.AdrpOp1 | Platforms/SurfaceDuoFamilyPkg/Library/QcSecProtocolsLocatorSecLib/QcSecProtocolsLocatorSecLib.h:45 | `ADRP_OP1` is at most 1 |
| Arm64.AddRd | Platforms/SurfaceDuoFamilyPkg/Library/QcSecProtocolsLocatorSecLib/QcSecProtocolsLocatorSecLib.h:48 | `ADD_RD` is at most 31 |
| Arm64.AddRn | Platforms/SurfaceDuoFamilyPkg/Library/QcSecProtocolsLocatorSecLib/QcSecProtocolsLocatorSecLib.h:49 | `ADD_RN` is at most 31 |
| Arm64.AddImm12 | Platforms/SurfaceDuoFamilyPkg/Library/QcSecProtocolsLocatorSecLib/QcSecProtocolsLocatorSecLib.h:50 | `ADD_IMM12` is at most 0xFFF |
| Arm64.AddSh | Platforms/SurfaceDuoFamilyPkg/Library/QcSecProtocolsLocatorSecLib/QcSecProtocolsLocatorSecLib.h:51 | `ADD_SH` is one bit |
| Arm64.AddOp2 | Platforms/SurfaceDuoFamilyPkg/Library/QcSecProtocolsLocatorSecLib/QcSecProtocolsLocatorSecLib.h:52 | `ADD_OP2` is at most 63 |
| Arm64.AddS | Platforms/SurfaceDuoFamilyPkg/Library/QcSecProtocolsLocatorSecLib/QcSecProtocolsLocatorSecLib.h:53 | `ADD_S` is one bit |
| Arm64.AddOp1 | Platforms/SurfaceDuoFamilyPkg/Library/QcSecProtocolsLocatorSecLib/QcSecProtocolsLocatorSecLib.h:54 | `ADD_OP1` is one bit |
| Arm64.AddSf | Platforms/SurfaceDuoFamilyPkg/Library/QcSecProtocolsLocatorSecLib/QcSecProtocolsLocatorSecLib.h:55 | `ADD_SF` is one bit |
| Arm64.DecodeAdrp | Platforms/SurfaceDuoFamilyPkg/Library/QcSecProtocolsLocatorSecLib/QcSecProtocolsLocatorSecLib.h:8-20 | the `Arm64Adrp` fields taken from a word are all within their widths |
| Arm64.DecodeAdd | Platforms/SurfaceDuoFamilyPkg/Library/QcSecProtocolsLocatorSecLib/QcSecProtocolsLocatorSecLib.h:23-38 | the `Arm64Add` fields taken from a word are all within their widths |
| Arm64.EncodeAdrp | Platforms/SurfaceDuoFamilyPkg/Library/QcSecProtocolsLocatorSecLib/QcSecProtocolsLocatorSecLib.h:41-45 | for in-range fields, `Rd \| immhi<<5 \| op2<<24 \| immlo<<29 \| op1<<31` decodes back to those fields |
| Arm64.EncodeAdd | Platforms/SurfaceDuoFamilyPkg/Library/QcSecProtocolsLocatorSecLib/QcSecProtocolsLocatorSecLib.h:48-55 | for in-range fields, the reassembled ADD word decodes back to those fields |
| Arm64.AdrpRoundTrip | Platforms/SurfaceDuoFamilyPkg/Library/QcSecProtocolsLocatorSecLib/QcSecProtocolsLocatorSecLib.h:41-45 | the five ADRP fields cover all 32 bits: reassembling them gives the word back |
| Arm64.AddRoundTrip | Platforms/SurfaceDuoFamilyPkg/Library/QcSecProtocolsLocatorSecLib/QcSecProtocolsLocatorSecLib.h:48-55 | the eight ADD fields cover all 32 bits: reassembling them gives the word back |
| Arm64.SharedExtractions | Platforms/SurfaceDuoFamilyPkg/Library/QcSecProtocolsLocatorSecLib/QcSecProtocolsLocatorSecLib.h:41-55 | `ADRP_RD` and `ADD_RD` are one extraction; `ADRP_IMMLO` is `ADD_S` plus twice `ADD_OP1`; `ADRP_OP1` is `ADD_SF` |
| Decoder.ValidateAdrp | Platforms/SurfaceDuoFamilyPkg/Library/QcSecProtocolsLocatorSecLib/QcSecProtocolsLocatorSecLib.c:94-103 | the `validate_adrp` test (op1 is 1, op2 is 16, Rd at most 30) on the decoded fields; no contract of its own, its acceptance set is stated by `ValidateAdrpAcceptance` |
| Decoder.ValidateAdrpAcceptance | Platforms/SurfaceDuoFamilyPkg/Library/QcSecProtocolsLocatorSecLib/QcSecProtocolsLocatorSecLib.c:94-103 | `validate_adrp` accepts a word exactly when bit 31 is 1, bits 24-28 are 16 and Rd is not 31 |
| Decoder.ValidateAdd | Platforms/SurfaceDuoFamilyPkg/Library/QcSecProtocolsLocatorSecLib/QcSecProtocolsLocatorSecLib.c:105-117 | the `validate_add` test (op1 is 0, S is 0, op2 is 34) on the decoded fields; no contract of its own, its acceptance set is stated by `ValidateAddAcceptance` |
| Decoder.ValidateAddAcceptance | Platforms/SurfaceDuoFamilyPkg/Library/QcSecProtocolsLocatorSecLib/QcSecProtocolsLocatorSecLib.c:105-117 | `validate_add` accepts a word exactly when bits 23-30 are 0x22, with bit 31 free |
| Decoder.ValidateAddIgnoresShAndSf | Platforms/SurfaceDuoFamilyPkg/Library/QcSecProtocolsLocatorSecLib/QcSecProtocolsLocatorSecLib.c:116 | changing `sh` or `sf` in an encoded ADD never changes whether `validate_add` accepts it |
| Decoder.AdrpAndAddDisjoint | Platforms/SurfaceDuoFamilyPkg/Library/QcSecProtocolsLocatorSecLib/QcSecProtocolsLocatorSecLib.c:94-117 | no word passes both `validate_adrp` and `validate_add` |
| Decoder.Imm21 | Platforms/SurfaceDuoFamilyPkg/Library/QcSecProtocolsLocatorSecLib/QcSecProtocolsLocatorSecLib.c:122 | `immhi << 2 \| immlo` is a 21-bit value |
| Decoder.ParseAdrp | Platforms/SurfaceDuoFamilyPkg/Library/QcSecProtocolsLocatorSecLib/QcSecProtocolsLocatorSecLib.c:119-126 | `imm`, `pc` and `RdAfterExecution` as `parse_adrp` stores them; no contract of its own, its properties are `ParseAdrpPage` and `ParseAdrpAgainstArchitecture` |
| Decoder.ParseAdrpPage | Platforms/SurfaceDuoFamilyPkg/Library/QcSecProtocolsLocatorSecLib/QcSecProtocolsLocatorSecLib.c:119-126 | `imm` is a page multiple below 2^32; `pc` is stored; `RdAfterExecution` is a page address below 2^33, exactly `imm` above the page holding `pc` |
| Decoder.ArchitecturalAdrp | Platforms/SurfaceDuoFamilyPkg/Library/QcSecProtocolsLocatorSecLib/QcSecProtocolsLocatorSecLib.c:119-126 | the reference a 64-bit ADRP computes (page of pc plus the sign-extended offset) is a 64-bit value |
| Decoder.ParseAdrpAgainstArchitecture | Platforms/SurfaceDuoFamilyPkg/Library/QcSecProtocolsLocatorSecLib/QcSecProtocolsLocatorSecLib.c:122-125 | `parse_adrp` equals the architectural ADRP for a non-negative immediate, and is 2^32 above it (mod 2^64) for a negative one |
| Decoder.ParseAdrpNonNegative | Platforms/SurfaceDuoFamilyPkg/Library/QcSecProtocolsLocatorSecLib/QcSecProtocolsLocatorSecLib.c:122-125 | with a non-negative immediate, `parse_adrp` computes what ADRP does |
| Decoder.ParseAdrpIgnoresSignBit | Platforms/SurfaceDuoFamilyPkg/Library/QcSecProtocolsLocatorSecLib/QcSecProtocolsLocatorSecLib.c:122 | the immediate's sign bit (bit 18 of immhi) has no effect on `parse_adrp` |
| TeImage.ReadU32 | Platforms/SurfaceDuoFamilyPkg/Library/QcSecProtocolsLocatorSecLib/QcSecProtocolsLocatorSecLib.c:34 | `*(UINT32 *)a` as a 32-bit word; no contract of its own, its byte layout is `ReadU32Bytes` |
| TeImage.ReadU32Bytes | Platforms/SurfaceDuoFamilyPkg/Library/QcSecProtocolsLocatorSecLib/QcSecProtocolsLocatorSecLib.c:34 | `*(UINT32 *)a` is the four bytes at a, least significant first |
| TeImage.SignatureBytes | Platforms/SurfaceDuoFamilyPkg/Library/QcSecProtocolsLocatorSecLib/QcSecProtocolsLocatorSecLib.c:31-34 | the word at a is `0xAA645A56` exactly when the bytes there are 'V', 'Z', 0x64, 0xAA |
| TeImage.ReadU64 | Platforms/SurfaceDuoFamilyPkg/Library/QcSecProtocolsLocatorSecLib/QcSecProtocolsLocatorSecLib.c:167 | a little-endian 64-bit load is below 2^64 |
| TeImage.BaseOfCode | Platforms/SurfaceDuoFamilyPkg/Library/QcSecProtocolsLocatorSecLib/QcSecProtocolsLocatorSecLib.c:167 | `teHeader->BaseOfCode`, the UINT32 at header offset 12 |
| TeImage.ImageBase | Platforms/SurfaceDuoFamilyPkg/Library/QcSecProtocolsLocatorSecLib/QcSecProtocolsLocatorSecLib.c:167 | `teHeader->ImageBase`, a UINT64 read at header offset 16, below 2^64 |
| TeImage.NumberOfSections | Platforms/SurfaceDuoFamilyPkg/Library/QcSecProtocolsLocatorSecLib/QcSecProtocolsLocatorSecLib.c:47 | `teHeader->NumberOfSections` is one byte |
| TeImage.ReadU32Frame | Platforms/SurfaceDuoFamilyPkg/Library/QcSecProtocolsLocatorSecLib/QcSecProtocolsLocatorSecLib.c:34 | a 32-bit load depends only on its four bytes |
| ImageLocator.SelectRegion | Platforms/SurfaceDuoFamilyPkg/Library/QcSecProtocolsLocatorSecLib/QcSecProtocolsLocatorSecLib.c:21-29 | the area used: "FD Reserved I", else "UEFI FD"; its properties are `RegionFallback` |
| ImageLocator.MagicSearch | Platforms/SurfaceDuoFamilyPkg/Library/QcSecProtocolsLocatorSecLib/QcSecProtocolsLocatorSecLib.c:33-39 | a found address is `start + i` with i a multiple of 4 below the length, and holds the signature |
| ImageLocator.SkipPadding | Platforms/SurfaceDuoFamilyPkg/Library/QcSecProtocolsLocatorSecLib/QcSecProtocolsLocatorSecLib.c:50-51 | the padding loop stops 4-aligned from its start, at a non-zero word |
| ImageLocator.HeadersEnd | Platforms/SurfaceDuoFamilyPkg/Library/QcSecProtocolsLocatorSecLib/QcSecProtocolsLocatorSecLib.c:45-47 | the headers end between 40 and 40 + 40 * 255 bytes after TEBuffer |
| ImageLocator.LocateTe | Platforms/SurfaceDuoFamilyPkg/Library/QcSecProtocolsLocatorSecLib/QcSecProtocolsLocatorSecLib.c:15-76 | on success TEBuffer is at least 0x1000 and holds the signature; programBuffer lies 4-aligned at or after the headers and holds a non-zero word; teSize and fileSize are 0 |
| ImageLocator.FindTeAddr | Platforms/SurfaceDuoFamilyPkg/Library/QcSecProtocolsLocatorSecLib/QcSecProtocolsLocatorSecLib.c:15-76 | the two loops compute `LocateTe` |
| ImageLocator.MagicSearchFirst | Platforms/SurfaceDuoFamilyPkg/Library/QcSecProtocolsLocatorSecLib/QcSecProtocolsLocatorSecLib.c:33-39 | every aligned word before the one found is loadable and not the signature; with no match, every aligned word of the range is loadable and not the signature |
| ImageLocator.MagicSearchInMemory | Platforms/SurfaceDuoFamilyPkg/Library/QcSecProtocolsLocatorSecLib/QcSecProtocolsLocatorSecLib.c:33-34 | a range that lies within memory never reads past its end |
| ImageLocator.MagicSearchAbsent | Platforms/SurfaceDuoFamilyPkg/Library/QcSecProtocolsLocatorSecLib/QcSecProtocolsLocatorSecLib.c:33-39 | a range with no signature in any aligned, loadable word yields SignatureNotFound |
| ImageLocator.SkipPaddingSkipsZeros | Platforms/SurfaceDuoFamilyPkg/Library/QcSecProtocolsLocatorSecLib/QcSecProtocolsLocatorSecLib.c:50-51 | the padding loop passes over zero words only; when it runs off the end, every aligned word to the end is zero |
| ImageLocator.RegionFallback | Platforms/SurfaceDuoFamilyPkg/Library/QcSecProtocolsLocatorSecLib/QcSecProtocolsLocatorSecLib.c:21-29 | "UEFI FD" is used only when "FD Reserved I" is missing; with both missing the result is RegionNotFound, and only then |
| ImageLocator.LocatedImageIsFirstSignature | Platforms/SurfaceDuoFamilyPkg/Library/QcSecProtocolsLocatorSecLib/QcSecProtocolsLocatorSecLib.c:31-39 | TEBuffer is the lowest `base + 0x1000 + i`, with i a multiple of 4 below the length, that holds the signature |
| ImageLocator.ProgramStartSkipsPadding | Platforms/SurfaceDuoFamilyPkg/Library/QcSecProtocolsLocatorSecLib/QcSecProtocolsLocatorSecLib.c:44-51 | every aligned word from the end of the headers up to programBuffer is zero |
| ImageLocator.MissingSignatureIsReported | Platforms/SurfaceDuoFamilyPkg/Library/QcSecProtocolsLocatorSecLib/QcSecProtocolsLocatorSecLib.c:31-42 | SignatureNotFound is returned exactly when no aligned word of the range holds the signature and all can be loaded |
| ImageLocator.LocateTeAsWritten | Platforms/SurfaceDuoFamilyPkg/Library/QcSecProtocolsLocatorSecLib/QcSecProtocolsLocatorSecLib.c:33-51 | `FindTeAddr` as written never reports a missing signature |
| ImageLocator.LocateTeAsWrittenAgainstCorrected | Platforms/SurfaceDuoFamilyPkg/Library/QcSecProtocolsLocatorSecLib/QcSecProtocolsLocatorSecLib.c:41-75 | as written and corrected agree except on a missing signature, where the version as written succeeds with TEBuffer 0 or runs out of memory |
| ImageLocator.MissingSignatureAsWritten | Platforms/SurfaceDuoFamilyPkg/Library/QcSecProtocolsLocatorSecLib/QcSecProtocolsLocatorSecLib.c:41-75 | an empty area: the corrected version reports SignatureNotFound, while the version as written returns success with TEBuffer 0 and programBuffer 40 |
| SignatureScanner.GuidAt | Platforms/SurfaceDuoFamilyPkg/Library/QcSecProtocolsLocatorSecLib/QcSecProtocolsLocatorSecLib.c:87 | `CompareMem(programBuffer + i, KeyGuid, 16) == 0`: the 16 bytes at `programBuffer + i` are the key |
| SignatureScanner.GuidSearch | Platforms/SurfaceDuoFamilyPkg/Library/QcSecProtocolsLocatorSecLib/QcSecProtocolsLocatorSecLib.c:85-91 | a found offset i satisfies `i + 16 <= teSize`, and the 16 bytes at `programBuffer + i` are the key |
| SignatureScanner.FindGuidInBuffer | Platforms/SurfaceDuoFamilyPkg/Library/QcSecProtocolsLocatorSecLib/QcSecProtocolsLocatorSecLib.c:83-92 | the loop computes `GuidSearch`; None stands for -EFI_NOT_FOUND |
| SignatureScanner.GuidSearchFirst | Platforms/SurfaceDuoFamilyPkg/Library/QcSecProtocolsLocatorSecLib/QcSecProtocolsLocatorSecLib.c:85-91 | the offset found is the smallest where the key lies; not found means the key lies at no i with `i + 16 <= teSize` |
| SignatureScanner.GuidSearchFrame | Platforms/SurfaceDuoFamilyPkg/Library/QcSecProtocolsLocatorSecLib/QcSecProtocolsLocatorSecLib.c:85-91 | the search reads no byte outside `[programBuffer, programBuffer + teSize)` |
| AddressResolver.Pc | Platforms/SurfaceDuoFamilyPkg/Library/QcSecProtocolsLocatorSecLib/QcSecProtocolsLocatorSecLib.c:138 | the UINT32 loop counter passed as pc is below 2^32, and is the offset itself below 2^32 |
| AddressResolver.LoadAddress | Platforms/SurfaceDuoFamilyPkg/Library/QcSecProtocolsLocatorSecLib/QcSecProtocolsLocatorSecLib.c:167 | `BaseOfCode + ImageBase` is below 2^32 + 2^64 |
| AddressResolver.MatchWords | Platforms/SurfaceDuoFamilyPkg/Library/QcSecProtocolsLocatorSecLib/QcSecProtocolsLocatorSecLib.c:144-168 | an address accepted at a step is a UINT64 value |
| AddressResolver.LookBackAddress | Platforms/SurfaceDuoFamilyPkg/Library/QcSecProtocolsLocatorSecLib/QcSecProtocolsLocatorSecLib.c:166-167 | the returned sum is taken modulo 2^64 |
| AddressResolver.IdiomAt | Platforms/SurfaceDuoFamilyPkg/Library/QcSecProtocolsLocatorSecLib/QcSecProtocolsLocatorSecLib.c:142-168 | one step of the scan at offset o: the four loads and the checks of `MatchWords` with `pc = offset`; an address it yields is a UINT64 value |
| AddressResolver.FirstStep | Platforms/SurfaceDuoFamilyPkg/Library/QcSecProtocolsLocatorSecLib/QcSecProtocolsLocatorSecLib.c:138-140 | the step found is 4-aligned from the first, below the bound, and satisfies the step test |
| AddressResolver.ScanBound | Platforms/SurfaceDuoFamilyPkg/Library/QcSecProtocolsLocatorSecLib/QcSecProtocolsLocatorSecLib.c:139 | the offsets visited are those below `fileSize - 48`, none when fileSize is at most 48 |
| AddressResolver.FirstMatch | Platforms/SurfaceDuoFamilyPkg/Library/QcSecProtocolsLocatorSecLib/QcSecProtocolsLocatorSecLib.c:138-173 | the offset where the scan returns is 4-aligned, below `fileSize - 48`, and every check passes there |
| AddressResolver.Resolve | Platforms/SurfaceDuoFamilyPkg/Library/QcSecProtocolsLocatorSecLib/QcSecProtocolsLocatorSecLib.c:138-175 | the address the scan returns is a UINT64 value |
| AddressResolver.FindProtocol | Platforms/SurfaceDuoFamilyPkg/Library/QcSecProtocolsLocatorSecLib/QcSecProtocolsLocatorSecLib.c:128-226 | the corrected search's result is a UINT64 value |
| AddressResolver.ScanForIdiom | Platforms/SurfaceDuoFamilyPkg/Library/QcSecProtocolsLocatorSecLib/QcSecProtocolsLocatorSecLib.c:138-175 | the offset loop computes `Resolve` |
| AddressResolver.FindProtocolScheduler | Platforms/SurfaceDuoFamilyPkg/Library/QcSecProtocolsLocatorSecLib/QcSecProtocolsLocatorSecLib.c:128-176 | `find_protocol_scheduler` (ADD at o+8, look-back pair at o-4 and o+4) computes `FindProtocol` for the scheduler idiom |
| AddressResolver.FindProtocolXbldt | Platforms/SurfaceDuoFamilyPkg/Library/QcSecProtocolsLocatorSecLib/QcSecProtocolsLocatorSecLib.c:178-226 | `find_protocol_xbldt` (ADD at o+4, look-back pair at o-12 and o-8) computes `FindProtocol` for the table idiom |
| AddressResolver.FindProtocolWith | Platforms/SurfaceDuoFamilyPkg/Library/QcSecProtocolsLocatorSecLib/QcSecProtocolsLocatorSecLib.c:128-176 | GUID search then idiom scan compute `FindProtocol` |
| AddressResolver.FirstStepFirst | Platforms/SurfaceDuoFamilyPkg/Library/QcSecProtocolsLocatorSecLib/QcSecProtocolsLocatorSecLib.c:138-140 | the scan stops at the first step that passes; with no stop, no step below the bound passes |
| AddressResolver.FirstMatchFirst | Platforms/SurfaceDuoFamilyPkg/Library/QcSecProtocolsLocatorSecLib/QcSecProtocolsLocatorSecLib.c:138-175 | every aligned offset before the one returned fails some check; with no match, every aligned offset below `fileSize - 48` fails |
| AddressResolver.IdiomAtFrame | Platforms/SurfaceDuoFamilyPkg/Library/QcSecProtocolsLocatorSecLib/QcSecProtocolsLocatorSecLib.c:142-218 | a scan step reads nothing outside `[TEBuffer - 12, TEBuffer + fileSize)` |
| AddressResolver.FirstMatchFrame | Platforms/SurfaceDuoFamilyPkg/Library/QcSecProtocolsLocatorSecLib/QcSecProtocolsLocatorSecLib.c:138-226 | the whole scan reads nothing outside `[TEBuffer - 12, TEBuffer + fileSize)` |
| AddressResolver.FindProtocolFrame | Platforms/SurfaceDuoFamilyPkg/Library/QcSecProtocolsLocatorSecLib/QcSecProtocolsLocatorSecLib.c:128-226 | both searches read only the GUID range and the image window |
| AddressResolver.MissingGuidIsNotFound | Platforms/SurfaceDuoFamilyPkg/Library/QcSecProtocolsLocatorSecLib/QcSecProtocolsLocatorSecLib.c:131-135 | in the corrected search, an absent GUID gives -EFI_NOT_FOUND whatever the image holds |
| AddressResolver.LookBackPcQuirk | Platforms/SurfaceDuoFamilyPkg/Library/QcSecProtocolsLocatorSecLib/QcSecProtocolsLocatorSecLib.c:160 | parsing the look-back ADRP with `pc = offset` gives a page exactly one page too high when the offset lies in the first d bytes of a page, and the right page otherwise |
| AddressResolver.LookBackAgainstArchitecture | Platforms/SurfaceDuoFamilyPkg/Library/QcSecProtocolsLocatorSecLib/QcSecProtocolsLocatorSecLib.c:156-167 | with a non-negative immediate, the look-back ADRP in the same page, and the look-back ADD a 64-bit, unshifted ADD to the ADRP's register, the result is what the look-back pair computes at its own address, plus the load address, modulo 2^64 |
| AddressResolver.LookBackPage | Platforms/SurfaceDuoFamilyPkg/Library/QcSecProtocolsLocatorSecLib/QcSecProtocolsLocatorSecLib.c:160 | with a non-negative immediate and the look-back ADRP in the same page as the offset, parsing it with `pc = offset` gives the architectural page of its own address |
| AddressResolver.GuidOffsetAsWritten | Platforms/SurfaceDuoFamilyPkg/Library/QcSecProtocolsLocatorSecLib/QcSecProtocolsLocatorSecLib.c:131 | the UINT32 `guid_offset` is below 2^32, and is 0xFFFFFFF2 when the GUID is missing |
| AddressResolver.GuardFiresAsWritten | Platforms/SurfaceDuoFamilyPkg/Library/QcSecProtocolsLocatorSecLib/QcSecProtocolsLocatorSecLib.c:131-185 | the two not-found guards as written (c:132 and c:182): the scheduler guard `guid_offset < 0` on a UINT32 never fires; the table guard `guid_offset == -1` fires exactly when guid_offset is 0xFFFFFFFF; so neither fires on the truncated not-found value 0xFFFFFFF2 |
| AddressResolver.FindProtocolAsWritten | Platforms/SurfaceDuoFamilyPkg/Library/QcSecProtocolsLocatorSecLib/QcSecProtocolsLocatorSecLib.c:128-226 | the searches as written: `GuardFiresAsWritten` on the truncated guid_offset, then the idiom scan for that offset; the result is a UINT64 value |
| AddressResolver.AsWrittenAgainstCorrected | Platforms/SurfaceDuoFamilyPkg/Library/QcSecProtocolsLocatorSecLib/QcSecProtocolsLocatorSecLib.c:131-135 | as written, a missing GUID makes the scan look for target 0xFFFFFFF2; with the GUID found (not at 0xFFFFFFFF for the table) the two versions agree |
| AddressResolver.SchedulerMatchesMissingGuid | Platforms/SurfaceDuoFamilyPkg/Library/QcSecProtocolsLocatorSecLib/QcSecProtocolsLocatorSecLib.c:131-168 | on a 72-byte image whose 16-byte GUID range lacks the key, as written returns 0xFFFFF000 + 0x113FC800, while the corrected search returns -EFI_NOT_FOUND |
| ProtocolFinder.WithScanBounds | Platforms/SurfaceDuoFamilyPkg/Library/QcSecProtocolsLocatorSecLib/QcSecProtocolsLocatorSecLib.c:244 | the TE information the searches get has both scan ranges readable, ending at the end of memory |
| ProtocolFinder.Filled | Platforms/SurfaceDuoFamilyPkg/Library/QcSecProtocolsLocatorSecLib/QcSecProtocolsLocatorSecLib.c:236 | the cache test: either static is non-zero |
| ProtocolFinder.Search | Platforms/SurfaceDuoFamilyPkg/Library/QcSecProtocolsLocatorSecLib/QcSecProtocolsLocatorSecLib.c:232-267 | one call on the statics: a filled cache answers each non-NULL pointer from the statics; a failed `FindTeAddr` changes nothing; otherwise each non-NULL pointer gets its search; the properties are the lemmas below |
| ProtocolFinder.Finder.constructor | Platforms/SurfaceDuoFamilyPkg/Library/QcSecProtocolsLocatorSecLib/QcSecProtocolsLocatorSecLib.c:229-230 | both statics start at 0 |
| ProtocolFinder.Finder.InitProtocolFinder | Platforms/SurfaceDuoFamilyPkg/Library/QcSecProtocolsLocatorSecLib/QcSecProtocolsLocatorSecLib.c:232-267 | the new statics and each non-NULL output are those of `Search` on the old statics; an output not written keeps its value; with both pointers one cell, the table address written last is what it holds |
| ProtocolFinder.OutputsAreCached | Platforms/SurfaceDuoFamilyPkg/Library/QcSecProtocolsLocatorSecLib/QcSecProtocolsLocatorSecLib.c:236-266 | an output is written only through a non-NULL pointer and is the cached value; a filled cache stays filled |
| ProtocolFinder.CacheHitSkipsSearch | Platforms/SurfaceDuoFamilyPkg/Library/QcSecProtocolsLocatorSecLib/QcSecProtocolsLocatorSecLib.c:236-242 | with either static set, memory and memory map play no part, the statics stay, and each non-NULL pointer gets its cached value |
| ProtocolFinder.LocateFailureChangesNothing | Platforms/SurfaceDuoFamilyPkg/Library/QcSecProtocolsLocatorSecLib/QcSecProtocolsLocatorSecLib.c:247-250 | when `FindTeAddr` fails, neither the statics nor the outputs change |
| ProtocolFinder.FirstCallSearches | Platforms/SurfaceDuoFamilyPkg/Library/QcSecProtocolsLocatorSecLib/QcSecProtocolsLocatorSecLib.c:252-266 | on an empty cache, each non-NULL pointer gets its search's result; a NULL pointer skips its search and leaves its static at 0 |
| ProtocolFinder.SearchIdempotent | Platforms/SurfaceDuoFamilyPkg/Library/QcSecProtocolsLocatorSecLib/QcSecProtocolsLocatorSecLib.c:235-242 | once a call fills the cache, a second call with the same pointers does exactly the same, whatever memory then holds |
| ProtocolFinder.FailedSearchIsCached | Platforms/SurfaceDuoFamilyPkg/Library/QcSecProtocolsLocatorSecLib/QcSecProtocolsLocatorSecLib.c:254-257 | a scheduler search that finds nothing caches -EFI_NOT_FOUND, which fills the cache |
| ProtocolFinder.TableOnlyStarvesScheduler | Platforms/SurfaceDuoFamilyPkg/Library/QcSecProtocolsLocatorSecLib/QcSecProtocolsLocatorSecLib.c:236 | after a first call with a NULL scheduler pointer that finds the table, every later call hands out 0 for the scheduler |

## Left out

- `LocateMemoryMapAreaByName` is a platform call. It is an oracle parameter
  (`RegionLookup`) from an area name to an optional base and length.
- `gEfiSchedIntfGuid` and `gEfiSecDtbGuid` are parameters. Their values are
  not part of this model.
- The `DEBUG` and `ASSERT` calls and the `#if 0` header dump are
  diagnostics only. `ASSERT(ScheIntrAddr > 0)` is not modelled.
- `EFI_TE_IMAGE_HEADER` comes from `IndustryStandard/PeImage.h`, which is
  not part of this model. The model reads only the fields the library
  uses, at their TE-header offsets:
  - `NumberOfSections` is byte 4;
  - `BaseOfCode` is the UINT32 at 12;
  - `ImageBase` is the UINT64 at 16.
- The `INST` union and the decoded `Arm64Adrp`/`Arm64Add` fields written
  through a pointer are separate decoded records and a result value
  (`AdrpResolved`). The ADD record's unused `imm`, `pc` and
  `RdAfterExecution` fields are not modelled.
- Bytes are an integer subtype in `[0, 256)`, not `bv8`. All bit-field
  arithmetic is written with `/` and `%` by powers of two.
- **Reads past the end of memory.** The C code loads from any address. The
  model gives the two unguarded `FindTeAddr` loops an `OutOfMemory` result
  instead: the signature scan can run past the area, and the padding loop
  has no bound. The scans take preconditions that their buffers are
  readable (`ProgramReadable`, `ImageReadable`).
- `ImageReadable` asks for `TEBuffer >= 12`. The look-backs read
  `TEBuffer + offset - 4` and `TEBuffer + offset - 12` at offset 0. The model
  needs these words to lie in memory. `LocateTe` always yields
  `TEBuffer >= 0x1000`.
- **`teSize` and `fileSize` are never set.** `InitProtocolFinder` leaves
  them at 0, so in C `teSize - 16` and `fileSize - 48` wrap to huge bounds.
  Both scans then run through memory until they match or fault. The model
  (`WithScanBounds`) bounds both scans by the end of memory instead. For
  the idiom scan this bound is a little tighter (see the `WithScanBounds`
  line below).
- ProtocolFinder.Search / ProtocolFinder.Finder.InitProtocolFinder: these
  compose the corrected `LocateTe` and `FindProtocol`. The versions as
  written, `LocateTeAsWritten` and `FindProtocolAsWritten`, are not wired
  into the cache. They are related to the corrected ones by
  `LocateTeAsWrittenAgainstCorrected` and `AsWrittenAgainstCorrected`.
- ProtocolFinder.WithScanBounds: with `fileSize = |mem| - TEBuffer`, the
  bound `offset + 48 < fileSize` skips offsets in the last 48 bytes of
  memory. The wrapped C bound is looser and gives no such cut-off. The C
  tries every offset whose first word can be read. It loads the later
  words of a step only after that word passes `validate_adrp`.
- AddressResolver.LookBackAddress: like c:166 and c:216, it adds `imm12`
  unshifted and ignores `sh`, `Rn` and `sf`. An `ADD` with `LSL #12` is
  resolved as c:166 resolves it, not as the processor would.
- **`UINT32` offset wrap.** `find_protocol_scheduler` and
  `find_protocol_xbldt` use a `UINT32` `offset`. The model's offsets are
  unbounded, and only the value passed as `pc` is taken modulo 2^32 (`Pc`).
  A wrap of the loop counter past 4 GiB is not modelled.
- AddressResolver.ScanBound: when `fileSize` is at most 48, the C bound
  `fileSize - 48` wraps to a huge value. The model then scans no offset.
  With `WithScanBounds` this happens only when memory ends within 48 bytes
  of TEBuffer.
- SignatureScanner.GuidSearch: when `teSize` is below 16, the C bound
  `teSize - 16` wraps. The model then searches no offset.
- The model does not capture concurrency or re-entrancy. The library runs
  single-threaded in SEC.

## Findings

| source | as written | input that shows it | evidently intended | confidence | as-written member | corrected member |
|---|---|---|---|---|---|---|
| Platforms/SurfaceDuoFamilyPkg/Library/QcSecProtocolsLocatorSecLib/QcSecProtocolsLocatorSecLib.c:131-135 | `guid_offset` is a `UINT32`, so `guid_offset < 0` never holds. A missing GUID (`-EFI_NOT_FOUND`, 0xFFFFFFF2 once truncated) goes on to scan for an ADRP/ADD pair computing 0xFFFFFFF2. | A 72-byte image with TEBuffer and programBuffer 12, `teSize` 16, `fileSize` 60, and a key other than the 16 bytes at 12, so the GUID is missing. It holds an ADRP x0 that `parse_adrp` resolves to 0xFFFFF000 at offsets 0 and 4, ADD #0 at 8 and ADD #0xFF2 at 12. The search as written returns 0xFFFFF000 + 0x113FC800. | return -EFI_NOT_FOUND when the GUID is not found | not executed | AddressResolver.SchedulerMatchesMissingGuid | AddressResolver.MissingGuidIsNotFound |
| Platforms/SurfaceDuoFamilyPkg/Library/QcSecProtocolsLocatorSecLib/QcSecProtocolsLocatorSecLib.c:181-185 | `guid_offset == -1` compares the `UINT32` with 0xFFFFFFFF. That guard fires for a GUID found at offset 0xFFFFFFFF and never for a missing one (0xFFFFFFF2). | any image lacking the GUID. The check never fires, and the scan looks for target 0xFFFFFFF2 as in the row above. | return -EFI_NOT_FOUND exactly when the GUID is not found | not executed | AddressResolver.AsWrittenAgainstCorrected | AddressResolver.MissingGuidIsNotFound |
| Platforms/SurfaceDuoFamilyPkg/Library/QcSecProtocolsLocatorSecLib/QcSecProtocolsLocatorSecLib.c:33-42 | when no word of the area is the signature, `TEBuffer` stays 0 and the missing image is only logged. The function then reads a header at address 0 and returns `EFI_SUCCESS`, though its comment promises `EFI_NOT_FOUND`. | a memory-map area of length 0 over 44 bytes whose only non-zero word is at 40. The version as written succeeds with TEBuffer 0 and programBuffer 40. | return `EFI_NOT_FOUND` when the signature is not found | not executed | ImageLocator.MissingSignatureAsWritten | ImageLocator.MissingSignatureIsReported |
