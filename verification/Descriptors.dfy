/**
 * The descriptor of a queue: its grantors (which stretch of which file holds which part of the queue), its handle,
 * its quantum and its flags; how it is exported to the signed AIDL parcelable and rebuilt from it.
 */
module Descriptors {
  import opened Common

  /** static_cast between the unsigned and signed types of one width keeps the value modulo that width. */
  function ToInt32(x: UInt32): Int32 { if x < TWO31 then x else x - TWO32 }
  function ToUInt32(x: Int32): UInt32 { if x >= 0 then x else x + TWO32 }
  function ToInt64(x: UInt64): Int64 { if x < TWO63 then x else x - TWO64 }
  function ToUInt64(x: Int64): UInt64 { if x >= 0 then x else x + TWO64 }

  const READPTRPOS := 0
  const WRITEPTRPOS := 1
  const DATAPTRPOS := 2
  const EVFLAGWORDPOS := 3
  const MIN_GRANTORS := DATAPTRPOS + 1
  const MIN_GRANTORS_FOR_EVENT_FLAG := EVFLAGWORDPOS + 1

  const COUNTER_BYTES: nat := 8
  const EVENT_WORD_BYTES: nat := 4

  datatype Grantor = Grantor(flags: UInt32, fdIndex: UInt32, offset: UInt32, extent: UInt64)

  const NO_GRANTOR := Grantor(0, 0, 0, 0)

  /** A native handle; a file descriptor stands for the file it refers to, so dup gives back an equal one. */
  datatype Handle = Handle(fds: seq<int>, ints: seq<int>)

  /** The state of an AidlMQDescriptorShim; without a handle it is invalid. */
  datatype Shim = Shim(grantors: seq<Grantor>, handle: Option<Handle>, quantum: UInt32, flags: UInt32) {
    function GetSize(): UInt64 { if |grantors| > DATAPTRPOS then grantors[DATAPTRPOS].extent else 0 }
  }

  datatype AidlGrantor = AidlGrantor(fdIndex: Int32, offset: Int32, extent: Int64)

  datatype MQDescriptor = MQDescriptor(quantum: Int32, grantors: seq<AidlGrantor>, flags: Int32, handle: Handle)

  // ------------------------------------------------------------------ word alignment and the layout loop

  /** (length + 7) & ~7; the code aborts on lengths that this would wrap. */
  function AlignToWordBoundary(length: nat): (aligned: nat)
    requires length <= TWO64 - 1 - 8 + 1
    ensures aligned % 8 == 0 && length <= aligned < length + 8
  {
    length + 7 - (length + 7) % 8
  }

  predicate TooLarge(bufferSize: UInt64, messageSize: UInt64)
    requires !Aborts(bufferSize)
  {
    || bufferSize > TWO64 - 1 - (COUNTER_BYTES + COUNTER_BYTES)
    || AlignToWordBoundary((COUNTER_BYTES + COUNTER_BYTES + bufferSize) % TWO64) > TWO31 - 1
    || messageSize > TWO31 - 1
  }

  /** The alignment check of the event-flag offset fails and stops the process. */
  predicate Aborts(bufferSize: UInt64) {
    (COUNTER_BYTES + COUNTER_BYTES + bufferSize) % TWO64 > TWO64 - 1 - 8 + 1
  }

  /** The two counters, the ring and, if asked for, the event-flag word, one after the other in one file. */
  function SingleFileLayout(bufferSize: nat, configureEventFlag: bool): seq<Grantor>
    requires bufferSize < TWO31 - 16
  {
    [Grantor(0, 0, 0, 8), Grantor(0, 0, 8, 8), Grantor(0, 0, 16, bufferSize)]
    + if configureEventFlag then [Grantor(0, 0, AlignToWordBoundary(16 + bufferSize), 4)] else []
  }

  /** The ring alone at the start of the second file, the rest one after the other in the first. */
  function TwoFileLayout(bufferSize: UInt64, configureEventFlag: bool): seq<Grantor> {
    [Grantor(0, 0, 0, 8), Grantor(0, 0, 8, 8), Grantor(0, 1, 0, bufferSize)]
    + if configureEventFlag then [Grantor(0, 0, 16, 4)] else []
  }

  class AidlMQDescriptorShim {
    var mGrantors: seq<Grantor>
    var mHandle: Option<Handle>
    var mQuantum: UInt32
    var mFlags: UInt32

    function Value(): Shim
      reads this
    {
      Shim(mGrantors, mHandle, mQuantum, mFlags)
    }

    constructor FromGrantors(grantors: seq<Grantor>, handle: Option<Handle>, size: UInt64, flavor: UInt32)
      ensures Value() == Shim(grantors, handle, size % TWO32, flavor)
    {
      mGrantors, mHandle, mQuantum, mFlags := grantors, handle, size % TWO32, flavor;
    }

    /** A queue that is too large gets no grantors, which initMemory rejects. */
    constructor FromSize(bufferSize: UInt64, handle: Option<Handle>, messageSize: UInt64, configureEventFlag: bool,
                         flavor: UInt32)
      requires !Aborts(bufferSize)
      ensures Value().handle == handle && Value().quantum == messageSize % TWO32 && Value().flags == flavor
      ensures !TooLarge(bufferSize, messageSize) ==>
        bufferSize < TWO31 - 16 && Value().grantors == SingleFileLayout(bufferSize, configureEventFlag)
      ensures TooLarge(bufferSize, messageSize) ==> Value().grantors == []
    {
      mGrantors, mHandle, mQuantum, mFlags := [], handle, messageSize % TWO32, flavor;
      new;
      if !TooLarge(bufferSize, messageSize) {
        var count := if configureEventFlag then MIN_GRANTORS_FOR_EVENT_FLAG else MIN_GRANTORS;
        mGrantors := seq(count, _ => NO_GRANTOR);
        var memSize := [COUNTER_BYTES, COUNTER_BYTES, bufferSize, EVENT_WORD_BYTES];
        var grantorPos, offset := 0, 0;
        while grantorPos < |mGrantors|
          invariant 0 <= grantorPos <= |mGrantors| == count
          invariant mHandle == handle && mQuantum == messageSize % TWO32 && mFlags == flavor
          invariant offset == [0, 8, 16, 16 + bufferSize, 20 + bufferSize][grantorPos]
          invariant forall i :: 0 <= i < grantorPos ==>
            mGrantors[i] == SingleFileLayout(bufferSize, configureEventFlag)[i]
        {
          mGrantors := mGrantors[grantorPos := Grantor(0, 0, AlignToWordBoundary(offset) % TWO32, memSize[grantorPos])];
          offset := offset + memSize[grantorPos];
          grantorPos := grantorPos + 1;
        }
      }
    }

    /** Rebuilds the shim from a parcelable; negative values leave it without a handle. */
    constructor FromDescriptor(desc: MQDescriptor)
      ensures Value() == Import(desc)
    {
      mGrantors, mHandle, mQuantum, mFlags := [], None, ToUInt32(desc.quantum), ToUInt32(desc.flags);
      new;
      if desc.quantum >= 0 && desc.flags >= 0 {
        mGrantors := seq(|desc.grantors|, _ => NO_GRANTOR);
        var i := 0;
        while i < |desc.grantors| && AllSigned(desc.grantors[i])
          invariant 0 <= i <= |desc.grantors| == |mGrantors|
          invariant mHandle == None && mQuantum == ToUInt32(desc.quantum) && mFlags == ToUInt32(desc.flags)
          invariant forall j :: 0 <= j < i ==> AllSigned(desc.grantors[j])
          invariant forall j :: 0 <= j < |mGrantors| ==>
            mGrantors[j] == if j < i then ImportGrantor(desc.grantors[j]) else NO_GRANTOR
        {
          mGrantors := mGrantors[i := ImportGrantor(desc.grantors[i])];
          i := i + 1;
        }
        FirstRejectedIs(desc.grantors, i);
        assert mGrantors == Import(desc).grantors;
        if i == |desc.grantors| {
          var fds: seq<int>, ints: seq<int> := [], [];
          for j := 0 to |desc.handle.fds|
            invariant fds == desc.handle.fds[..j]
          {
            fds := fds + [desc.handle.fds[j]];
          }
          for j := 0 to |desc.handle.ints|
            invariant ints == desc.handle.ints[..j]
          {
            ints := ints + [desc.handle.ints[j]];
          }
          assert fds == desc.handle.fds && ints == desc.handle.ints;
          mHandle := Some(Handle(fds, ints));
        }
      }
    }

    /** dupeDesc; the code reads the handle without testing it. */
    method DupeDesc() returns (desc: MQDescriptor)
      requires mHandle.Some?
      ensures desc == Export(Value())
    {
      var grantors: seq<AidlGrantor> := [];
      for i := 0 to |mGrantors|
        invariant |grantors| == i
        invariant forall j :: 0 <= j < i ==> grantors[j] == ExportGrantor(mGrantors[j])
      {
        grantors := grantors + [ExportGrantor(mGrantors[i])];
      }
      assert grantors == Export(Value()).grantors;
      var numFds := |mHandle.value.fds|;
      var data := mHandle.value.fds + mHandle.value.ints;
      var fds: seq<int>, ints: seq<int>, dataIndex := [], [], 0;
      while dataIndex < numFds
        invariant 0 <= dataIndex <= numFds && fds == data[..dataIndex]
      {
        fds := fds + [data[dataIndex]];
        dataIndex := dataIndex + 1;
      }
      while dataIndex < |data|
        invariant numFds <= dataIndex <= |data| && ints == data[numFds..dataIndex]
      {
        ints := ints + [data[dataIndex]];
        dataIndex := dataIndex + 1;
      }
      assert fds == mHandle.value.fds && ints == mHandle.value.ints;
      desc := MQDescriptor(ToInt32(mQuantum), grantors, ToInt32(mFlags), Handle(fds, ints));
    }
  }

  // ------------------------------------------------------------------ export and import as functions

  function ExportGrantor(g: Grantor): AidlGrantor {
    AidlGrantor(ToInt32(g.fdIndex), ToInt32(g.offset), ToInt64(g.extent))
  }

  function ImportGrantor(g: AidlGrantor): Grantor {
    Grantor(0, ToUInt32(g.fdIndex), ToUInt32(g.offset), ToUInt64(g.extent))
  }

  predicate AllSigned(g: AidlGrantor) { g.offset >= 0 && g.extent >= 0 && g.fdIndex >= 0 }

  function Export(s: Shim): MQDescriptor
    requires s.handle.Some?
  {
    MQDescriptor(ToInt32(s.quantum),
                 seq(|s.grantors|, i requires 0 <= i < |s.grantors| => ExportGrantor(s.grantors[i])),
                 ToInt32(s.flags), s.handle.value)
  }

  /** The index of the first grantor with a negative value, or the number of grantors. */
  function FirstRejected(grantors: seq<AidlGrantor>): (i: nat)
    ensures i <= |grantors| && (i < |grantors| ==> !AllSigned(grantors[i]))
    ensures forall j :: 0 <= j < i ==> AllSigned(grantors[j])
  {
    if grantors == [] || !AllSigned(grantors[0]) then 0 else 1 + FirstRejected(grantors[1..])
  }

  lemma FirstRejectedIs(grantors: seq<AidlGrantor>, i: nat)
    requires i <= |grantors| && (i < |grantors| ==> !AllSigned(grantors[i]))
    requires forall j :: 0 <= j < i ==> AllSigned(grantors[j])
    ensures FirstRejected(grantors) == i
  {
  }

  function Import(d: MQDescriptor): Shim {
    var quantum, flags := ToUInt32(d.quantum), ToUInt32(d.flags);
    if d.quantum < 0 || d.flags < 0 then Shim([], None, quantum, flags)
    else
      var ok := FirstRejected(d.grantors);
      var grantors := seq(|d.grantors|, i requires 0 <= i < |d.grantors| =>
        if i < ok then ImportGrantor(d.grantors[i]) else NO_GRANTOR);
      Shim(grantors, if ok == |d.grantors| then Some(d.handle) else None, quantum, flags)
  }

  /**
   * A rebuilt shim has a handle, the one it was sent, exactly if no value of the descriptor is negative; then every
   * grantor has arrived with its values.  Quantum and flags are taken over in any case.
   */
  lemma ImportHandleIff(d: MQDescriptor)
    ensures Import(d).handle.Some? <==>
      && d.quantum >= 0 && d.flags >= 0
      && forall i :: 0 <= i < |d.grantors| ==>
           d.grantors[i].fdIndex >= 0 && d.grantors[i].offset >= 0 && d.grantors[i].extent >= 0
    ensures Import(d).quantum % TWO32 == d.quantum % TWO32 && Import(d).flags % TWO32 == d.flags % TWO32
    ensures Import(d).handle.Some? ==>
      && Import(d).handle.value == d.handle && Import(d).quantum == d.quantum && Import(d).flags == d.flags
      && |Import(d).grantors| == |d.grantors|
      && forall i :: 0 <= i < |d.grantors| ==>
           Import(d).grantors[i] == Grantor(0, d.grantors[i].fdIndex, d.grantors[i].offset, d.grantors[i].extent)
  {
    var ok := FirstRejected(d.grantors);
    if d.quantum >= 0 && d.flags >= 0 && ok < |d.grantors| {
      assert !AllSigned(d.grantors[ok]);
    }
    forall i | 0 <= i < ok ensures AllSigned(d.grantors[i]) {
    }
  }

  // ------------------------------------------------------------------ the round trip, exactly

  predicate GrantorFitsSigned(g: Grantor) {
    g.flags == 0 && g.fdIndex < TWO31 && g.offset < TWO31 && g.extent < TWO63
  }

  /** Every value fits the signed type that carries it. */
  predicate FitsSigned(s: Shim) {
    && s.quantum < TWO31 && s.flags < TWO31
    && forall i :: 0 <= i < |s.grantors| ==> GrantorFitsSigned(s.grantors[i])
  }

  /**
   * Exporting a shim and rebuilding it gives it back, handle included, exactly when all its values fit the signed
   * types and its grantors carry no flags of their own.
   */
  lemma RoundTripIff(s: Shim)
    requires s.handle.Some?
    ensures Import(Export(s)) == s <==> FitsSigned(s)
  {
    var d := Export(s);
    var s' := Import(d);
    if FitsSigned(s) {
      FirstRejectedIs(d.grantors, |d.grantors|);
      assert forall i :: 0 <= i < |s.grantors| ==> s'.grantors[i] == s.grantors[i];
      assert s'.grantors == s.grantors;
    } else if s' == s {
      forall i | 0 <= i < |s.grantors| ensures GrantorFitsSigned(s.grantors[i]) {
        assert s'.grantors[i] == s.grantors[i] && AllSigned(d.grantors[i]);
      }
      assert FitsSigned(s);
    }
  }

  /** Every queue built in one file survives the round trip, so both ends see the same ring. */
  lemma SingleFileRoundTrip(bufferSize: UInt64, messageSize: UInt64, configureEventFlag: bool, flags: UInt32,
                            handle: Handle)
    requires !Aborts(bufferSize) && !TooLarge(bufferSize, messageSize) && flags < TWO31
    ensures bufferSize < TWO31 - 16
    ensures var s := Shim(SingleFileLayout(bufferSize, configureEventFlag), Some(handle), messageSize % TWO32, flags);
      Import(Export(s)) == s && Import(Export(s)).GetSize() == bufferSize
  {
    var s := Shim(SingleFileLayout(bufferSize, configureEventFlag), Some(handle), messageSize % TWO32, flags);
    RoundTripIff(s);
  }

  /** With a ring in a file of its own nothing checks the sizes beforehand; this is what the round trip needs. */
  lemma TwoFileRoundTripIff(bufferSize: UInt64, messageSize: UInt64, configureEventFlag: bool, flags: UInt32,
                            handle: Handle)
    requires flags < TWO31
    ensures var s := Shim(TwoFileLayout(bufferSize, configureEventFlag), Some(handle), messageSize % TWO32, flags);
      Import(Export(s)) == s <==> bufferSize < TWO63 && messageSize % TWO32 < TWO31
  {
    var s := Shim(TwoFileLayout(bufferSize, configureEventFlag), Some(handle), messageSize % TWO32, flags);
    RoundTripIff(s);
    assert s.grantors[DATAPTRPOS].extent == bufferSize;
  }
}
