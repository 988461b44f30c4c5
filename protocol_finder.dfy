/**
 * InitProtocolFinder: locate XBLCore.te once, find the scheduler interface
 * and the XBL DT operations table in it, cache both addresses in two
 * static variables and hand them to the caller through two optional
 * pointers.
 */
module ProtocolFinder {
  import opened Wrappers
  import opened TeImage
  import opened ImageLocator
  import opened SignatureScanner
  import opened AddressResolver

  /** An EFI_PHYSICAL_ADDRESS the caller passes by pointer. */
  class AddressCell {
    var value: nat

    constructor (v: nat)
      ensures value == v
    {
      value := v;
    }
  }

  /** The two statics, ScheIntrAddr and SecDTOpsAddr; 0 means "not searched yet". */
  datatype Cache = Cache(scheIntrAddr: nat, secDtOpsAddr: nat)

  /** A cache with either address set: every later call is answered from it. */
  predicate Filled(c: Cache)
  {
    c.scheIntrAddr != 0 || c.secDtOpsAddr != 0
  }

  /**
   * One call: the cache afterwards and what is written through each pointer
   * (None when nothing is written through it).
   */
  datatype Outcome = Outcome(cache: Cache, scheOut: Option<nat>, xbldtOut: Option<nat>)

  /**
   * The TE information the searches are given. FindTeAddr leaves teSize
   * and fileSize at 0; the model bounds both scans by the end of memory.
   */
  function WithScanBounds(mem: Memory, info: TeInfo): (r: TeInfo)
    requires 12 <= info.teBuffer && info.teBuffer + TeHeaderSize <= |mem| && info.programBuffer <= |mem|
    ensures ProgramReadable(mem, r) && ImageReadable(mem, r)
    ensures r.teBuffer == info.teBuffer && r.programBuffer == info.programBuffer
    ensures r.programBuffer + r.teSize == |mem| && r.teBuffer + r.fileSize == |mem|
  {
    info.(teSize := |mem| - info.programBuffer, fileSize := |mem| - info.teBuffer)
  }

  /**
   * What one call does, given the cache before it, the scheduler and DTB
   * GUIDs, and which of the two pointers are not NULL.
   */
  function Search(c: Cache, mem: Memory, lookup: RegionLookup, schedGuid: Guid, dtbGuid: Guid,
                  wantSche: bool, wantXbldt: bool): Outcome
  {
    if Filled(c) then
      Outcome(c, if wantSche then Some(c.scheIntrAddr) else None, if wantXbldt then Some(c.secDtOpsAddr) else None)
    else
      match LocateTe(mem, lookup)
      case Err(_) => Outcome(c, None, None)
      case Ok(located) =>
        var info := WithScanBounds(mem, located);
        var sche := if wantSche then FindProtocol(mem, info, Scheduler, schedGuid) else c.scheIntrAddr;
        var xbldt := if wantXbldt then FindProtocol(mem, info, Table, dtbGuid) else c.secDtOpsAddr;
        Outcome(Cache(sche, xbldt), if wantSche then Some(sche) else None, if wantXbldt then Some(xbldt) else None)
  }

  /** The library's state: the two statics. */
  class Finder {
    var scheIntrAddr: nat
    var secDtOpsAddr: nat

    /** Both statics start at 0. */
    constructor ()
      ensures scheIntrAddr == 0 && secDtOpsAddr == 0
    {
      scheIntrAddr := 0;
      secDtOpsAddr := 0;
    }

    function State(): Cache
      reads this
    {
      Cache(scheIntrAddr, secDtOpsAddr)
    }

    /**
     * InitProtocolFinder. Through a pointer that is not NULL the call writes
     * what Search says; when both pointers are the same cell the DT
     * operations address, written last, is what it holds.
     */
    method InitProtocolFinder(mem: Memory, lookup: RegionLookup, schedGuid: Guid, dtbGuid: Guid,
                              scheAddr: AddressCell?, xbldtOpsAddr: AddressCell?)
      modifies this, scheAddr, xbldtOpsAddr
      ensures var o := Search(old(State()), mem, lookup, schedGuid, dtbGuid, scheAddr != null, xbldtOpsAddr != null);
        State() == o.cache &&
        (xbldtOpsAddr != null ==>
           xbldtOpsAddr.value == if o.xbldtOut.Some? then o.xbldtOut.value else old(xbldtOpsAddr.value)) &&
        (scheAddr != null && scheAddr != xbldtOpsAddr ==>
           scheAddr.value == if o.scheOut.Some? then o.scheOut.value else old(scheAddr.value))
    {
      if scheIntrAddr != 0 || secDtOpsAddr != 0 {
        if scheAddr != null {
          scheAddr.value := scheIntrAddr;
        }
        if xbldtOpsAddr != null {
          xbldtOpsAddr.value := secDtOpsAddr;
        }
        return;
      }
      var located := FindTeAddr(mem, lookup);
      if located.Err? {
        return;
      }
      var info := WithScanBounds(mem, located.value);
      if scheAddr != null {
        scheIntrAddr := FindProtocolScheduler(mem, info, schedGuid);
        scheAddr.value := scheIntrAddr;
      }
      if xbldtOpsAddr != null {
        secDtOpsAddr := FindProtocolXbldt(mem, info, dtbGuid);
        xbldtOpsAddr.value := secDtOpsAddr;
      }
    }
  }

  /**
   * The caller is given the cached addresses, and only through the
   * pointers that are not NULL; the cache never goes back to empty.
   */
  lemma OutputsAreCached(c: Cache, mem: Memory, lookup: RegionLookup, schedGuid: Guid, dtbGuid: Guid,
                         wantSche: bool, wantXbldt: bool)
    ensures var o := Search(c, mem, lookup, schedGuid, dtbGuid, wantSche, wantXbldt);
      (o.scheOut.Some? ==> wantSche && o.scheOut.value == o.cache.scheIntrAddr) &&
      (o.xbldtOut.Some? ==> wantXbldt && o.xbldtOut.value == o.cache.secDtOpsAddr) &&
      (Filled(c) ==> Filled(o.cache))
  {
  }

  /**
   * Once either static is set the call searches nothing: the memory and the
   * memory map play no part, the cache stays as it is and every pointer
   * that is not NULL gets the cached value.
   */
  lemma CacheHitSkipsSearch(c: Cache, m1: Memory, l1: RegionLookup, m2: Memory, l2: RegionLookup,
                            schedGuid: Guid, dtbGuid: Guid, wantSche: bool, wantXbldt: bool)
    requires Filled(c)
    ensures var o := Search(c, m1, l1, schedGuid, dtbGuid, wantSche, wantXbldt);
      o == Search(c, m2, l2, schedGuid, dtbGuid, wantSche, wantXbldt) && o.cache == c &&
      (wantSche <==> o.scheOut == Some(c.scheIntrAddr)) &&
      (wantXbldt <==> o.xbldtOut == Some(c.secDtOpsAddr))
  {
  }

  /** When FindTeAddr fails on an empty cache, nothing is written and the cache stays empty. */
  lemma LocateFailureChangesNothing(mem: Memory, lookup: RegionLookup, schedGuid: Guid, dtbGuid: Guid,
                                    wantSche: bool, wantXbldt: bool)
    requires LocateTe(mem, lookup).Err?
    ensures Search(Cache(0, 0), mem, lookup, schedGuid, dtbGuid, wantSche, wantXbldt) == Outcome(Cache(0, 0), None, None)
  {
  }

  /**
   * On an empty cache with the image found, each pointer that is not NULL
   * gets what its search finds and the other static stays 0.
   */
  lemma FirstCallSearches(mem: Memory, lookup: RegionLookup, schedGuid: Guid, dtbGuid: Guid,
                          wantSche: bool, wantXbldt: bool)
    requires LocateTe(mem, lookup).Ok?
    ensures var info := WithScanBounds(mem, LocateTe(mem, lookup).value);
      var o := Search(Cache(0, 0), mem, lookup, schedGuid, dtbGuid, wantSche, wantXbldt);
      o.cache.scheIntrAddr == (if wantSche then FindProtocol(mem, info, Scheduler, schedGuid) else 0) &&
      o.cache.secDtOpsAddr == (if wantXbldt then FindProtocol(mem, info, Table, dtbGuid) else 0) &&
      (wantSche <==> o.scheOut.Some?) && (wantXbldt <==> o.xbldtOut.Some?)
  {
  }

  /**
   * "Do search only once": a second call with the same pointers after a call
   * that filled the cache writes the same values, whatever memory then holds.
   */
  lemma SearchIdempotent(c: Cache, m1: Memory, l1: RegionLookup, m2: Memory, l2: RegionLookup,
                         schedGuid: Guid, dtbGuid: Guid, wantSche: bool, wantXbldt: bool)
    requires Filled(Search(c, m1, l1, schedGuid, dtbGuid, wantSche, wantXbldt).cache)
    ensures var o1 := Search(c, m1, l1, schedGuid, dtbGuid, wantSche, wantXbldt);
      var o2 := Search(o1.cache, m2, l2, schedGuid, dtbGuid, wantSche, wantXbldt);
      o2 == o1
  {
    var o1 := Search(c, m1, l1, schedGuid, dtbGuid, wantSche, wantXbldt);
    OutputsAreCached(c, m1, l1, schedGuid, dtbGuid, wantSche, wantXbldt);
    if !Filled(c) && LocateTe(m1, l1).Ok? {
      FirstCallSearches(m1, l1, schedGuid, dtbGuid, wantSche, wantXbldt);
    }
  }

  /**
   * A failed search is cached too: -EFI_NOT_FOUND is not 0, so a scheduler
   * search that finds nothing is never repeated and every later call gets
   * -EFI_NOT_FOUND.
   */
  lemma FailedSearchIsCached(mem: Memory, lookup: RegionLookup, schedGuid: Guid, dtbGuid: Guid, wantXbldt: bool)
    requires LocateTe(mem, lookup).Ok?
    requires FindProtocol(mem, WithScanBounds(mem, LocateTe(mem, lookup).value), Scheduler, schedGuid) == NotFoundAddress
    ensures var o := Search(Cache(0, 0), mem, lookup, schedGuid, dtbGuid, true, wantXbldt);
      Filled(o.cache) && o.scheOut == Some(NotFoundAddress) && o.cache.scheIntrAddr == NotFoundAddress
  {
  }

  /**
   * The cache test is "either static set": a first call with a NULL
   * scheduler pointer that finds the DT operations table at an address
   * other than 0 leaves ScheIntrAddr at 0, and every later call hands the
   * caller 0 for the scheduler without searching for it.
   */
  lemma TableOnlyStarvesScheduler(m1: Memory, l1: RegionLookup, m2: Memory, l2: RegionLookup,
                                  schedGuid: Guid, dtbGuid: Guid, wantXbldt: bool)
    requires LocateTe(m1, l1).Ok?
    requires FindProtocol(m1, WithScanBounds(m1, LocateTe(m1, l1).value), Table, dtbGuid) != 0
    ensures var o1 := Search(Cache(0, 0), m1, l1, schedGuid, dtbGuid, false, true);
      Filled(o1.cache) && o1.cache.scheIntrAddr == 0 &&
      Search(o1.cache, m2, l2, schedGuid, dtbGuid, true, wantXbldt).scheOut == Some(0)
  {
    FirstCallSearches(m1, l1, schedGuid, dtbGuid, false, true);
  }
}
