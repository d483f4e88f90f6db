/**
 * The size-based constructor of a queue: how much shared memory it asks for, where the parts of the queue go, and the
 * windows of that memory that are mapped for them.
 */
module QueueLayout {
  import opened Arithmetic
  import opened Common
  import opened Descriptors

  /** A page size: a power of two is all the code relies on, and here only that it is a multiple of 8. */
  ghost predicate IsPage(page: nat) { 8 <= page < TWO31 && page % 8 == 0 }

  /** (length + page - 1) & ~(page - 1) in size_t arithmetic. */
  function RoundUpToPage(length: nat, page: nat): nat
    requires page > 0
  {
    var sum := (length + page - 1) % TWO64;
    sum - sum % page
  }

  function MetaDataBytes(configureEventFlag: bool): nat {
    2 * COUNTER_BYTES + if configureEventFlag then EVENT_WORD_BYTES else 0
  }

  /** What the constructor hands to initMemory; ashmemSize is the size of file 0. */
  datatype Layout = Layout(grantors: seq<Grantor>, quantum: UInt32, ashmemSize: nat)

  /** The descriptor and memory for a ring of ringBytes bytes; a ring too large for one file gets no grantors. */
  predicate Requested(l: Layout, ringBytes: UInt64, elementSize: UInt64, configureEventFlag: bool,
                      userBuffer: Option<UInt64>, page: nat)
    requires page > 0
  {
    && l.quantum == elementSize % TWO32
    && match userBuffer
       case Some(size) =>
         && ringBytes <= size
         && l.grantors == TwoFileLayout(ringBytes, configureEventFlag)
         && l.ashmemSize == RoundUpToPage(MetaDataBytes(configureEventFlag), page)
       case None =>
         && !Aborts(ringBytes)
         && if TooLarge(ringBytes, elementSize) then l.grantors == []
            else
              && ringBytes < TWO31 - 16
              && l.grantors == SingleFileLayout(ringBytes, configureEventFlag)
              && l.ashmemSize == RoundUpToPage(AlignToWordBoundary(ringBytes) + MetaDataBytes(configureEventFlag), page)
  }

  /**
   * userBuffer is the size of the file the caller brings for the ring, if any.  None: the constructor gives up, or
   * the process aborts, before there is a descriptor.
   */
  method CreateQueue(numElements: UInt64, elementSize: UInt64, configureEventFlag: bool, userBuffer: Option<UInt64>,
                     page: nat)
    returns (layout: Option<Layout>)
    requires elementSize > 0 && IsPage(page)
    ensures layout.Some? ==>
      && numElements * elementSize < TWO64
      && Requested(layout.value, numElements * elementSize, elementSize, configureEventFlag, userBuffer, page)
    ensures layout.None? <==>
      || numElements * elementSize >= TWO64
      || (userBuffer.Some? && numElements * elementSize > userBuffer.value)
      || (userBuffer.None? && (TWO64 - 24 < numElements * elementSize < TWO64 - 16
                               || numElements * elementSize > TWO64 - 8))
  {
    FitsIff(numElements, elementSize);
    if numElements > (TWO64 - 1) / elementSize {
      return None;
    }
    var queueBytes := numElements * elementSize;
    if userBuffer.Some? && queueBytes > userBuffer.value {
      return None;
    }
    var metaData := MetaDataBytes(configureEventFlag);
    if userBuffer.Some? {
      var grantors := TwoFileGrantors(queueBytes, configureEventFlag);
      return Some(Layout(grantors, elementSize % TWO32, RoundUpToPage(metaData, page)));
    }
    if queueBytes > TWO64 - 8 || Aborts(queueBytes) {
      return None;
    }
    var shim := new AidlMQDescriptorShim.FromSize(queueBytes, None, elementSize, configureEventFlag, 0);
    layout := Some(Layout(shim.mGrantors, shim.mQuantum,
                          RoundUpToPage(AlignToWordBoundary(queueBytes) + metaData, page)));
  }

  lemma FitsIff(numElements: nat, elementSize: nat)
    requires elementSize > 0
    ensures numElements > (TWO64 - 1) / elementSize <==> numElements * elementSize >= TWO64
  {
    var most := (TWO64 - 1) / elementSize;
    QuotientUnique(TWO64 - 1, elementSize, most, (TWO64 - 1) % elementSize);
    if numElements > most {
      MulMonotone(most + 1, numElements, elementSize);
      OneMore(most, elementSize);
    } else {
      MulMonotone(numElements, most, elementSize);
    }
  }

  lemma OneMore(k: nat, d: nat)
    ensures (k + 1) * d == k * d + d
  {
  }

  /** The grantor loop for a ring in a file of its own. */
  method TwoFileGrantors(queueBytes: UInt64, configureEventFlag: bool) returns (grantors: seq<Grantor>)
    ensures grantors == TwoFileLayout(queueBytes, configureEventFlag)
  {
    var count := if configureEventFlag then MIN_GRANTORS_FOR_EVENT_FLAG else MIN_GRANTORS;
    grantors := seq(count, _ => NO_GRANTOR);
    var memSize := [COUNTER_BYTES, COUNTER_BYTES, queueBytes, EVENT_WORD_BYTES];
    var grantorPos, offset := 0, 0;
    while grantorPos < |grantors|
      invariant 0 <= grantorPos <= |grantors| == count
      invariant offset == [0, 8, 16, 16, 20][grantorPos]
      invariant forall i :: 0 <= i < grantorPos ==> grantors[i] == TwoFileLayout(queueBytes, configureEventFlag)[i]
    {
      var fdIndex, grantorOffset := 0, offset;
      if grantorPos == DATAPTRPOS {
        fdIndex, grantorOffset := 1, 0;
      } else {
        offset := offset + memSize[grantorPos];
      }
      grantors := grantors[grantorPos :=
        Grantor(0, fdIndex, AlignToWordBoundary(grantorOffset) % TWO32, memSize[grantorPos])];
      grantorPos := grantorPos + 1;
    }
  }

  /** The checks of initMemory on a descriptor with a handle. */
  predicate Accepted(grantors: seq<Grantor>, quantum: UInt32, elementSize: UInt64) {
    && |grantors| >= MIN_GRANTORS
    && quantum == elementSize
    && forall i :: 0 <= i < |grantors| ==> grantors[i].offset % 8 == 0
  }

  predicate Disjoint(a: Grantor, b: Grantor) {
    a.fdIndex != b.fdIndex || a.offset + a.extent <= b.offset || b.offset + b.extent <= a.offset
  }

  /** Aligned parts, disjoint in each file, inside the files, with a ring of exactly the elements asked for. */
  ghost predicate Sound(l: Layout, ringBytes: nat, userBuffer: Option<UInt64>) {
    && |l.grantors| >= MIN_GRANTORS
    && (forall i :: 0 <= i < |l.grantors| ==> l.grantors[i].offset % 8 == 0)
    && (forall i, j :: 0 <= i < j < |l.grantors| ==> Disjoint(l.grantors[i], l.grantors[j]))
    && (forall i :: 0 <= i < |l.grantors| ==>
          match l.grantors[i].fdIndex
          case 0 => l.grantors[i].offset + l.grantors[i].extent <= l.ashmemSize
          case 1 => userBuffer.Some? && l.grantors[i].offset + l.grantors[i].extent <= userBuffer.value
          case _ => false)
    && l.grantors[READPTRPOS].extent == l.grantors[WRITEPTRPOS].extent == 8
    && l.grantors[DATAPTRPOS].extent == ringBytes
    && (|l.grantors| > EVFLAGWORDPOS ==> l.grantors[EVFLAGWORDPOS].extent == 4)
  }

  /** The least multiple of the page size that is not below the length. */
  lemma RoundUpLeast(length: nat, page: nat)
    requires IsPage(page) && length + page <= TWO64
    ensures RoundUpToPage(length, page) % page == 0
    ensures length <= RoundUpToPage(length, page) < length + page
  {
    var sum := length + page - 1;
    assert RoundUpToPage(length, page) == (sum / page) * page;
    ModMultiple(sum / page, page);
  }

  /** Every queue that initMemory accepts, however it was asked for, has a sound layout. */
  method CreateSoundQueue(numElements: UInt64, elementSize: UInt64, configureEventFlag: bool,
                          userBuffer: Option<UInt64>, page: nat)
    returns (valid: bool, layout: Layout)
    requires elementSize > 0 && IsPage(page)
    ensures valid ==> Sound(layout, numElements * elementSize, userBuffer) && layout.quantum == elementSize
    ensures valid ==> NoPageWasted(layout, page)
    ensures valid <==> Acceptable(numElements * elementSize, elementSize, userBuffer)
  {
    var made := CreateQueue(numElements, elementSize, configureEventFlag, userBuffer, page);
    if made.None? {
      return false, Layout([], 0, 0);
    }
    layout := made.value;
    valid := Accepted(layout.grantors, layout.quantum, elementSize);
    RequestedSound(layout, numElements * elementSize, elementSize, configureEventFlag, userBuffer, page);
    if valid { RequestedTight(layout, numElements * elementSize, elementSize, configureEventFlag, userBuffer, page); }
  }

  /** Whole pages, and up to alignment the last of them is needed for some part. */
  ghost predicate NoPageWasted(l: Layout, page: nat)
    requires page > 0
  {
    && l.ashmemSize % page == 0
    && exists i :: 0 <= i < |l.grantors| && PartNeedsSize(l, l.grantors[i], page)
  }

  predicate PartNeedsSize(l: Layout, part: Grantor, page: nat) {
    part.fdIndex == 0 && l.ashmemSize < AlignedEnd(part) + page
  }

  function AlignedEnd(part: Grantor): nat { part.offset + part.extent + 7 - (part.extent + 7) % 8 }

  lemma RequestedTight(l: Layout, ringBytes: UInt64, elementSize: UInt64, configureEventFlag: bool,
                       userBuffer: Option<UInt64>, page: nat)
    requires IsPage(page) && Requested(l, ringBytes, elementSize, configureEventFlag, userBuffer, page)
    requires Accepted(l.grantors, l.quantum, elementSize)
    ensures NoPageWasted(l, page)
  {
    var parts := (if userBuffer.Some? then 0 else AlignToWordBoundary(ringBytes)) + MetaDataBytes(configureEventFlag);
    RoundUpLeast(parts, page);
    var last := if configureEventFlag then EVFLAGWORDPOS else if userBuffer.Some? then WRITEPTRPOS else DATAPTRPOS;
    if userBuffer.None? { AlignShift(ringBytes); }
    assert PartNeedsSize(l, l.grantors[last], page);
  }

  /** What a caller has to respect: 32-bit quantum, ring in the given file, or ring and quantum within 31 bits. */
  predicate Acceptable(ringBytes: nat, elementSize: nat, userBuffer: Option<UInt64>) {
    match userBuffer
    case Some(size) => elementSize < TWO32 && ringBytes <= size
    case None => elementSize < TWO31 && ringBytes <= TWO31 - 24
  }

  lemma RequestedSound(l: Layout, ringBytes: UInt64, elementSize: UInt64, configureEventFlag: bool,
                       userBuffer: Option<UInt64>, page: nat)
    requires IsPage(page) && Requested(l, ringBytes, elementSize, configureEventFlag, userBuffer, page)
    ensures Accepted(l.grantors, l.quantum, elementSize) <==> Acceptable(ringBytes, elementSize, userBuffer)
    ensures Accepted(l.grantors, l.quantum, elementSize) ==> Sound(l, ringBytes, userBuffer)
  {
    match userBuffer {
      case Some(size) => TwoFileRequested(l, ringBytes, elementSize, configureEventFlag, size, page);
      case None => SingleFileRequested(l, ringBytes, elementSize, configureEventFlag, page);
    }
  }

  lemma TwoFileRequested(l: Layout, ringBytes: UInt64, elementSize: UInt64, configureEventFlag: bool, size: UInt64,
                         page: nat)
    requires IsPage(page) && Requested(l, ringBytes, elementSize, configureEventFlag, Some(size), page)
    ensures Accepted(l.grantors, l.quantum, elementSize) <==> elementSize < TWO32
    ensures Sound(l, ringBytes, Some(size))
  {
    RoundUpLeast(MetaDataBytes(configureEventFlag), page);
    TwoFileSound(ringBytes, configureEventFlag, size, l);
  }

  lemma SingleFileRequested(l: Layout, ringBytes: UInt64, elementSize: UInt64, configureEventFlag: bool, page: nat)
    requires IsPage(page) && Requested(l, ringBytes, elementSize, configureEventFlag, None, page)
    ensures Accepted(l.grantors, l.quantum, elementSize) <==> Acceptable(ringBytes, elementSize, None)
    ensures Accepted(l.grantors, l.quantum, elementSize) ==> Sound(l, ringBytes, None)
  {
    TooLargeIff(ringBytes, elementSize);
    if l.grantors != [] {
      RoundUpLeast(AlignToWordBoundary(ringBytes) + MetaDataBytes(configureEventFlag), page);
      SingleFileSound(ringBytes, configureEventFlag, l);
    }
  }

  lemma TooLargeIff(ringBytes: UInt64, elementSize: UInt64)
    requires !Aborts(ringBytes)
    ensures TooLarge(ringBytes, elementSize) <==> ringBytes > TWO31 - 24 || elementSize >= TWO31
  {
  }

  lemma SingleFileSound(ringBytes: nat, configureEventFlag: bool, l: Layout)
    requires ringBytes < TWO31 - 16 && l.grantors == SingleFileLayout(ringBytes, configureEventFlag)
    requires l.ashmemSize >= AlignToWordBoundary(ringBytes) + MetaDataBytes(configureEventFlag)
    ensures Sound(l, ringBytes, None)
  {
    AlignShift(ringBytes);
  }

  lemma AlignShift(length: nat)
    requires length < TWO31
    ensures AlignToWordBoundary(16 + length) == 16 + AlignToWordBoundary(length)
  {
  }

  lemma TwoFileSound(ringBytes: UInt64, configureEventFlag: bool, userBuffer: UInt64, l: Layout)
    requires ringBytes <= userBuffer && l.grantors == TwoFileLayout(ringBytes, configureEventFlag)
    requires l.ashmemSize >= MetaDataBytes(configureEventFlag)
    ensures Sound(l, ringBytes, Some(userBuffer))
  {
  }

  // ------------------------------------------------------------------ mapping windows

  /** Narrowing to int. */
  function ToInt(x: nat): Int32 { ToInt32(x % TWO32) }

  /** The file offset and length that mapGrantorDescr passes to mmap. */
  function MapOffset(g: Grantor, page: nat): Int32
    requires page > 0
  {
    ToInt((g.offset / page) * page)
  }

  function MapLength(g: Grantor, page: nat): Int32
    requires page > 0
  {
    ToInt((g.offset - MapOffset(g, page)) % TWO32 + g.extent)
  }

  /** The page-aligned window that holds the grantor. */
  ghost predicate WindowExact(g: Grantor, page: nat)
    requires page > 0
  {
    && MapOffset(g, page) % page == 0
    && 0 <= MapOffset(g, page) <= g.offset < MapOffset(g, page) + page
    && MapOffset(g, page) + MapLength(g, page) == g.offset + g.extent
  }

  /** The window is the right one exactly when it is shorter than 2^31 bytes. */
  lemma WindowExactIff(g: Grantor, page: nat)
    requires IsPage(page) && g.offset < TWO31
    ensures WindowExact(g, page) <==> g.offset % page + g.extent < TWO31
  {
    WindowStart(g, page);
    ModMultiple(g.offset / page, page);
    NarrowingExactIff(g.offset % page + g.extent);
    RemainderSmaller(g.offset, page);
    assert MapLength(g, page) == ToInt(g.offset % page + g.extent);
  }

  lemma NarrowingExactIff(x: nat)
    ensures ToInt(x) == x <==> x < TWO31
  {
  }

  lemma WindowStart(g: Grantor, page: nat)
    requires IsPage(page) && g.offset < TWO31
    ensures MapOffset(g, page) == (g.offset / page) * page == g.offset - g.offset % page
  {
    assert g.offset == (g.offset / page) * page + g.offset % page;
    MulMonotone(0, g.offset / page, page);
    NarrowingExactIff((g.offset / page) * page);
  }

  /** All windows of a queue in one file are exact. */
  lemma SingleFileWindowsExact(ringBytes: nat, messageSize: UInt64, configureEventFlag: bool, page: nat, i: nat)
    requires IsPage(page) && ringBytes < TWO64 && !Aborts(ringBytes) && !TooLarge(ringBytes, messageSize)
    requires i < |SingleFileLayout(ringBytes, configureEventFlag)|
    ensures WindowExact(SingleFileLayout(ringBytes, configureEventFlag)[i], page)
  {
    var g := SingleFileLayout(ringBytes, configureEventFlag)[i];
    assert g.offset + g.extent < TWO31 || (i == EVFLAGWORDPOS && g.offset <= TWO31 - 8);
    if g.offset + g.extent < TWO31 {
      RemainderSmaller(g.offset, page);
    }
    WindowExactIff(g, page);
  }

  lemma RemainderSmaller(offset: nat, page: nat)
    requires page > 0
    ensures offset % page <= offset
  {
    MulMonotone(0, offset / page, page);
  }

  /** The ring of a queue in two files is mapped whole exactly when it is shorter than 2^31 bytes. */
  lemma TwoFileRingWindowIff(ringBytes: UInt64, configureEventFlag: bool, page: nat)
    requires IsPage(page)
    ensures WindowExact(TwoFileLayout(ringBytes, configureEventFlag)[DATAPTRPOS], page) <==> ringBytes < TWO31
  {
    WindowExactIff(TwoFileLayout(ringBytes, configureEventFlag)[DATAPTRPOS], page);
  }

  /** The address mapGrantorDescr returns when mmap maps the window at base. */
  function MapGrantor(base: int, g: Grantor, page: nat): int
    requires page > 0
  {
    base + (g.offset - MapOffset(g, page))
  }

  /** The base and length that unmapGrantorDescr passes to munmap. */
  function UnmapGrantor(address: int, g: Grantor, page: nat): (int, int)
    requires page > 0
  {
    (address - (g.offset - MapOffset(g, page)), MapLength(g, page))
  }

  /** Unmapping what was mapped for a grantor releases that window again, all of it and nothing else. */
  lemma UnmapUndoesMap(base: int, g: Grantor, page: nat)
    requires IsPage(page) && g.offset < TWO31 && g.offset % page + g.extent < TWO31
    ensures var address := MapGrantor(base, g, page);
      var (released, length) := UnmapGrantor(address, g, page);
      released == base <= address && length == g.offset % page + g.extent && address + g.extent == base + length
  {
    WindowExactIff(g, page);
    assert g.offset - MapOffset(g, page) + g.extent == MapLength(g, page);
    WindowStart(g, page);
  }
}
