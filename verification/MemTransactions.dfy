/**
 * MemRegion and MemTransaction: the one or two stretches of the ring that a transaction covers.  The ring is an array
 * of bytes; an address is a byte offset from mRing, and a message is quantum consecutive bytes.
 */
module MemTransactions {
  import opened Arithmetic

  newtype Byte = b: int | 0 <= b < 256

  datatype Address = Null | At(offset: nat) {
    /** Pointer arithmetic; Null is only ever displaced by zero messages. */
    function Plus(bytes: nat): Address {
      match this
      case Null => Null
      case At(offset) => At(offset + bytes)
    }
  }

  datatype MemRegion = MemRegion(address: Address, length: nat) {
    /** getAddress and getLengthInBytes. */
    function Bytes(quantum: nat): Span { Span(address, length * quantum) }
  }

  const NO_REGION := MemRegion(Null, 0)

  datatype MemTransaction = MemTransaction(first: MemRegion, second: MemRegion) {

    function Messages(): nat { first.length + second.length }

    function GetSlot(quantum: nat, idx: nat): Address {
      if idx > Messages() then Null
      else if idx < first.length then first.address.Plus(idx * quantum)
      else second.address.Plus((idx - first.length) * quantum)
    }

    function GetMemRegionInfo(quantum: nat, startIdx: nat, nMessages: nat): RegionInfo {
      if startIdx + nMessages > Messages() then Invalid
      else
        var firstCount :=
          if startIdx < first.length
          then (if nMessages < first.length - startIdx then nMessages else first.length - startIdx)
          else 0;
        var secondCount := nMessages - firstCount;
        var secondStart := if startIdx > first.length then startIdx - first.length else 0;
        Info(firstCount, secondCount,
             if firstCount != 0 then first.address.Plus(startIdx * quantum) else Null,
             if secondCount != 0 then second.address.Plus(secondStart * quantum) else Null)
    }

    /** A transaction over a ring of the given size: its regions lie inside it and do not overlap. */
    ghost predicate Fits(quantum: nat, size: nat) {
      SpansFit(first.Bytes(quantum), second.Bytes(quantum), size)
    }
  }

  datatype RegionInfo =
    | Invalid
    | Info(firstCount: nat, secondCount: nat, firstBase: Address, secondBase: Address)

  const NO_TRANSACTION := MemTransaction(NO_REGION, NO_REGION)

  // ------------------------------------------------------------------ byte spans

  datatype Span = Span(base: Address, bytes: nat) {
    predicate Covers(p: int) { base.At? && base.offset <= p < base.offset + bytes }

    predicate Inside(size: nat) { bytes > 0 ==> base.At? && base.offset + bytes <= size }

    /** This span is the stretch of other that starts at byte start of it. */
    predicate StretchOf(other: Span, start: nat) {
      bytes > 0 ==> other.base.At? && base == At(other.base.offset + start) && start + bytes <= other.bytes
    }
  }

  predicate SpansFit(a: Span, b: Span, size: nat) {
    && a.Inside(size) && b.Inside(size)
    && (a.bytes > 0 && b.bytes > 0 ==>
          b.base.offset + b.bytes <= a.base.offset || a.base.offset + a.bytes <= b.base.offset)
  }

  /** Which byte of the two spans, taken in order, the ring byte p is; -1 if they do not cover it. */
  function Position(a: Span, b: Span, p: nat): int {
    if a.Covers(p) then p - a.base.offset
    else if b.Covers(p) then a.bytes + p - b.base.offset
    else -1
  }

  /** The ring byte that is byte k of the two spans. */
  function ByteAt(a: Span, b: Span, size: nat, k: nat): (p: nat)
    requires SpansFit(a, b, size) && k < a.bytes + b.bytes
    ensures p < size && Position(a, b, p) == k
  {
    if k < a.bytes then a.base.offset + k else b.base.offset + (k - a.bytes)
  }

  /** ByteAt is onto the covered bytes. */
  lemma ByteAtPosition(a: Span, b: Span, size: nat, p: nat)
    requires SpansFit(a, b, size) && p < size && Position(a, b, p) >= 0
    ensures Position(a, b, p) < a.bytes + b.bytes && ByteAt(a, b, size, Position(a, b, p)) == p
  {
  }

  /** The ring after data is stored from byte start of the spans on. */
  ghost function ScatterBytes(ring: seq<Byte>, a: Span, b: Span, start: nat, data: seq<Byte>): (ring': seq<Byte>)
    ensures |ring'| == |ring|
  {
    seq(|ring|, p requires 0 <= p < |ring| =>
      var k := Position(a, b, p) - start;
      if Position(a, b, p) >= 0 && 0 <= k < |data| then data[k] else ring[p])
  }

  /** count bytes of the spans, from byte start of them on. */
  ghost function GatherBytes(ring: seq<Byte>, a: Span, b: Span, start: nat, count: nat): (data: seq<Byte>)
    requires SpansFit(a, b, |ring|) && start + count <= a.bytes + b.bytes
    ensures |data| == count
  {
    seq(count, k requires 0 <= k < count => ring[ByteAt(a, b, |ring|, start + k)])
  }

  lemma ScatteredByte(ring: seq<Byte>, a: Span, b: Span, start: nat, data: seq<Byte>, k: nat)
    requires SpansFit(a, b, |ring|) && k < |data| && start + k < a.bytes + b.bytes
    ensures ScatterBytes(ring, a, b, start, data)[ByteAt(a, b, |ring|, start + k)] == data[k]
  {
  }

  lemma GatherAfterScatterBytes(ring: seq<Byte>, a: Span, b: Span, start: nat, data: seq<Byte>)
    requires SpansFit(a, b, |ring|) && start + |data| <= a.bytes + b.bytes
    ensures GatherBytes(ScatterBytes(ring, a, b, start, data), a, b, start, |data|) == data
  {
    var ring' := ScatterBytes(ring, a, b, start, data);
    forall k: nat | k < |data| ensures GatherBytes(ring', a, b, start, |data|)[k] == data[k] {
      ScatteredByte(ring, a, b, start, data, k);
    }
  }

  /** The part of the spans from byte start on, count bytes long, is made of these two blocks. */
  predicate Blocks(a: Span, b: Span, start: nat, count: nat, x: Span, y: Span) {
    && x.bytes + y.bytes == count
    && x.StretchOf(a, start)
    && (y.bytes > 0 ==> a.bytes <= start + x.bytes && y.StretchOf(b, start + x.bytes - a.bytes))
    && (count > 0 && start < a.bytes ==> x.bytes > 0)
    && (x.bytes > 0 && start + count > a.bytes ==> start + x.bytes == a.bytes)
  }

  /** The two blocks cover byte p exactly when p is one of the count bytes, at the matching place. */
  lemma BlockPosition(a: Span, b: Span, size: nat, start: nat, count: nat, x: Span, y: Span, p: nat)
    requires SpansFit(a, b, size) && start + count <= a.bytes + b.bytes && Blocks(a, b, start, count, x, y)
    ensures y.Covers(p) ==> Position(a, b, p) == start + x.bytes + p - y.base.offset
    ensures x.Covers(p) ==> !y.Covers(p) && Position(a, b, p) == start + p - x.base.offset
    ensures start <= Position(a, b, p) < start + count ==> x.Covers(p) || y.Covers(p)
  {
  }

  // ------------------------------------------------------------------ messages

  /** The ring after data is stored from message startIdx of the transaction on. */
  ghost function Scatter(ring: seq<Byte>, tx: MemTransaction, quantum: nat, startIdx: nat, data: seq<Byte>): seq<Byte> {
    ScatterBytes(ring, tx.first.Bytes(quantum), tx.second.Bytes(quantum), startIdx * quantum, data)
  }

  /** The bytes of nMessages messages of the transaction, from message startIdx on. */
  ghost function Gather(ring: seq<Byte>, tx: MemTransaction, quantum: nat, startIdx: nat, nMessages: nat): seq<Byte>
    requires tx.Fits(quantum, |ring|) && startIdx + nMessages <= tx.Messages()
  {
    RequestInside(tx, quantum, startIdx, nMessages);
    GatherBytes(ring, tx.first.Bytes(quantum), tx.second.Bytes(quantum), startIdx * quantum, nMessages * quantum)
  }

  lemma MulAdd(x: int, y: int, d: int)
    ensures (x + y) * d == x * d + y * d
    ensures (x - y) * d == x * d - y * d
  {
  }

  lemma RequestInside(tx: MemTransaction, quantum: nat, startIdx: nat, nMessages: nat)
    requires startIdx + nMessages <= tx.Messages()
    ensures startIdx * quantum + nMessages * quantum <= tx.first.Bytes(quantum).bytes + tx.second.Bytes(quantum).bytes
  {
    MulMonotone(startIdx + nMessages, tx.Messages(), quantum);
    MulAdd(startIdx, nMessages, quantum);
    MulAdd(tx.first.length, tx.second.length, quantum);
  }

  lemma MessageInside(idx: nat, count: nat, quantum: nat, b: nat)
    requires idx < count && b < quantum
    ensures idx * quantum + b < idx * quantum + quantum <= count * quantum
  {
    MulMonotone(idx + 1, count, quantum);
    MulAdd(idx, 1, quantum);
  }

  /** Slot idx starts at byte idx * quantum of the transaction and no message is split between the regions. */
  lemma SlotIsByteRange(tx: MemTransaction, quantum: nat, size: nat, idx: nat, b: nat)
    requires tx.Fits(quantum, size) && idx < tx.Messages() && b < quantum
    ensures var first, second := tx.first.Bytes(quantum), tx.second.Bytes(quantum);
      && idx * quantum + b < first.bytes + second.bytes
      && tx.GetSlot(quantum, idx).At?
      && ByteAt(first, second, size, idx * quantum + b) == tx.GetSlot(quantum, idx).offset + b
  {
    if idx < tx.first.length {
      MessageInside(idx, tx.first.length, quantum, b);
    } else {
      MulMonotone(tx.first.length, idx, quantum);
      MulAdd(idx, tx.first.length, quantum);
      MessageInside(idx - tx.first.length, tx.second.length, quantum, b);
    }
  }

  /**
   * The documentation promises a null address for every invalid index.  The code keeps that promise exactly when it is
   * not asked for the index one past the end of a transaction that wraps around.
   */
  lemma GetSlotPastEnd(tx: MemTransaction, quantum: nat, idx: nat)
    requires idx >= tx.Messages()
    ensures tx.GetSlot(quantum, idx) == Null <==> !(idx == tx.Messages() && tx.second.address.At?)
  {
  }

  /** Message j of a buffer of messages. */
  function Message(data: seq<Byte>, quantum: nat, j: nat): (m: seq<Byte>)
    requires j * quantum + quantum <= |data|
  {
    data[j * quantum..j * quantum + quantum]
  }

  ghost predicate SlotHas(ring: seq<Byte>, slot: Address, message: seq<Byte>) {
    && slot.At? && slot.offset + |message| <= |ring|
    && forall b :: 0 <= b < |message| ==> ring[slot.offset + b] == message[b]
  }

  /** p is a byte of slot idx. */
  ghost predicate SlotCovers(tx: MemTransaction, quantum: nat, idx: nat, p: nat) {
    Span(tx.GetSlot(quantum, idx), quantum).Covers(p)
  }

  /** p is a byte of one of the slots startIdx .. startIdx + n. */
  ghost predicate InSlots(tx: MemTransaction, quantum: nat, startIdx: nat, n: nat, p: nat) {
    exists idx: nat :: startIdx <= idx < startIdx + n && SlotCovers(tx, quantum, idx, p)
  }

  ghost predicate MessageFilled(ring: seq<Byte>, tx: MemTransaction, quantum: nat, startIdx: nat, data: seq<Byte>,
                                idx: nat)
    requires startIdx <= idx
  {
    && (idx - startIdx) * quantum + quantum <= |data|
    && SlotHas(ring, tx.GetSlot(quantum, idx), Message(data, quantum, idx - startIdx))
  }

  /** Slots startIdx .. startIdx + n of after hold the messages of data, and nothing else differs from before. */
  ghost predicate SlotsFilled(before: seq<Byte>, after: seq<Byte>, tx: MemTransaction, quantum: nat, startIdx: nat,
                              data: seq<Byte>, n: nat) {
    && |after| == |before|
    && (forall idx: nat | startIdx <= idx < startIdx + n :: MessageFilled(after, tx, quantum, startIdx, data, idx))
    && (forall p: nat | p < |before| && !InSlots(tx, quantum, startIdx, n, p) :: after[p] == before[p])
  }

  /** Copying in stores message j at slot startIdx + j and leaves every byte of every other slot, and outside, alone. */
  lemma ScatterFillsSlots(ring: seq<Byte>, tx: MemTransaction, quantum: nat, startIdx: nat, data: seq<Byte>, n: nat)
    requires tx.Fits(quantum, |ring|) && startIdx + n <= tx.Messages() && |data| == n * quantum && quantum > 0
    ensures SlotsFilled(ring, Scatter(ring, tx, quantum, startIdx, data), tx, quantum, startIdx, data, n)
  {
    var ring' := Scatter(ring, tx, quantum, startIdx, data);
    forall idx: nat | startIdx <= idx < startIdx + n
      ensures MessageFilled(ring', tx, quantum, startIdx, data, idx)
    {
      ScatterFillsSlot(ring, tx, quantum, startIdx, data, n, idx);
    }
    forall p: nat | p < |ring| && !InSlots(tx, quantum, startIdx, n, p) ensures ring'[p] == ring[p] {
      var k := Position(tx.first.Bytes(quantum), tx.second.Bytes(quantum), p);
      if startIdx * quantum <= k < startIdx * quantum + n * quantum {
        CoveredIsInSlot(tx, quantum, |ring|, startIdx, n, p);
      }
    }
  }

  lemma ScatterFillsSlot(ring: seq<Byte>, tx: MemTransaction, quantum: nat, startIdx: nat, data: seq<Byte>, n: nat,
                         idx: nat)
    requires tx.Fits(quantum, |ring|) && startIdx + n <= tx.Messages() && |data| == n * quantum && quantum > 0
    requires startIdx <= idx < startIdx + n
    ensures MessageFilled(Scatter(ring, tx, quantum, startIdx, data), tx, quantum, startIdx, data, idx)
  {
    var ring' := Scatter(ring, tx, quantum, startIdx, data);
    var j := idx - startIdx;
    MessageInside(j, n, quantum, 0);
    var message, slot := Message(data, quantum, j), tx.GetSlot(quantum, idx);
    SlotIsByteRange(tx, quantum, |ring|, idx, quantum - 1);
    forall b | 0 <= b < |message| ensures ring'[slot.offset + b] == message[b] {
      SlotIsByteRange(tx, quantum, |ring|, idx, b);
      MulAdd(startIdx, j, quantum);
      ScatteredByte(ring, tx.first.Bytes(quantum), tx.second.Bytes(quantum), startIdx * quantum, data, j * quantum + b);
    }
  }

  lemma CoveredIsInSlot(tx: MemTransaction, quantum: nat, size: nat, startIdx: nat, n: nat, p: nat)
    requires tx.Fits(quantum, size) && startIdx + n <= tx.Messages() && p < size && quantum > 0
    requires var k := Position(tx.first.Bytes(quantum), tx.second.Bytes(quantum), p);
      startIdx * quantum <= k < startIdx * quantum + n * quantum
    ensures InSlots(tx, quantum, startIdx, n, p)
  {
    var k := Position(tx.first.Bytes(quantum), tx.second.Bytes(quantum), p);
    var idx, b := WhichMessage(startIdx, n, quantum, k);
    SlotIsByteRange(tx, quantum, size, idx, b);
    ByteAtPosition(tx.first.Bytes(quantum), tx.second.Bytes(quantum), size, p);
    assert SlotCovers(tx, quantum, idx, p);
  }

  lemma WhichMessage(startIdx: nat, n: nat, quantum: nat, k: nat) returns (idx: nat, b: nat)
    requires quantum > 0 && startIdx * quantum <= k < startIdx * quantum + n * quantum
    ensures k == idx * quantum + b && b < quantum && startIdx <= idx < startIdx + n
  {
    idx, b := k / quantum, k % quantum;
    if idx < startIdx {
      MessageInside(idx, startIdx, quantum, b);
    }
    if idx >= startIdx + n {
      MulMonotone(startIdx + n, idx, quantum);
      MulAdd(startIdx, n, quantum);
    }
  }

  /** Reading back what was just copied in returns it, wherever the ring wraps. */
  lemma GatherAfterScatter(ring: seq<Byte>, tx: MemTransaction, quantum: nat, startIdx: nat, data: seq<Byte>, n: nat)
    requires tx.Fits(quantum, |ring|) && startIdx + n <= tx.Messages() && |data| == n * quantum
    ensures Gather(Scatter(ring, tx, quantum, startIdx, data), tx, quantum, startIdx, n) == data
  {
    RequestInside(tx, quantum, startIdx, n);
    GatherAfterScatterBytes(ring, tx.first.Bytes(quantum), tx.second.Bytes(quantum), startIdx * quantum, data);
  }

  /** Filling the slots in place, one message at a time and in any order, gives the same ring as copying them in. */
  lemma FillingSlotsIsScatter(ring: seq<Byte>, ring': seq<Byte>, tx: MemTransaction, quantum: nat, startIdx: nat,
                              data: seq<Byte>, n: nat)
    requires tx.Fits(quantum, |ring|) && startIdx + n <= tx.Messages() && |data| == n * quantum && quantum > 0
    requires SlotsFilled(ring, ring', tx, quantum, startIdx, data, n)
    ensures ring' == Scatter(ring, tx, quantum, startIdx, data)
  {
    var scattered := Scatter(ring, tx, quantum, startIdx, data);
    ScatterFillsSlots(ring, tx, quantum, startIdx, data, n);
    forall p: nat | p < |ring| ensures ring'[p] == scattered[p] {
      if InSlots(tx, quantum, startIdx, n, p) {
        SlotsDetermine(ring, ring', scattered, tx, quantum, startIdx, data, n, p);
      }
    }
  }

  lemma SlotsDetermine(ring: seq<Byte>, ring': seq<Byte>, ring'': seq<Byte>, tx: MemTransaction, quantum: nat,
                       startIdx: nat, data: seq<Byte>, n: nat, p: nat)
    requires SlotsFilled(ring, ring', tx, quantum, startIdx, data, n)
    requires SlotsFilled(ring, ring'', tx, quantum, startIdx, data, n)
    requires p < |ring| && InSlots(tx, quantum, startIdx, n, p)
    ensures ring'[p] == ring''[p]
  {
    var idx: nat :| startIdx <= idx < startIdx + n && SlotCovers(tx, quantum, idx, p);
    assert MessageFilled(ring', tx, quantum, startIdx, data, idx);
    assert MessageFilled(ring'', tx, quantum, startIdx, data, idx);
    MessageDetermines(ring', ring'', tx, quantum, startIdx, data, idx, p);
  }

  lemma MessageDetermines(ring: seq<Byte>, ring': seq<Byte>, tx: MemTransaction, quantum: nat, startIdx: nat,
                          data: seq<Byte>, idx: nat, p: nat)
    requires startIdx <= idx && SlotCovers(tx, quantum, idx, p) && p < |ring| == |ring'|
    requires MessageFilled(ring, tx, quantum, startIdx, data, idx)
    requires MessageFilled(ring', tx, quantum, startIdx, data, idx)
    ensures ring[p] == ring'[p]
  {
    var message := Message(data, quantum, idx - startIdx);
    SlotDetermines(ring, ring', tx.GetSlot(quantum, idx), message, p);
  }

  lemma SlotDetermines(ring: seq<Byte>, ring': seq<Byte>, slot: Address, message: seq<Byte>, p: nat)
    requires SlotHas(ring, slot, message) && SlotHas(ring', slot, message) && Span(slot, |message|).Covers(p)
    ensures ring[p] == ring'[p]
  {
    assert ring[slot.offset + (p - slot.offset)] == message[p - slot.offset];
  }

  // ------------------------------------------------------------------ the copies themselves

  method MemCopy(dst: array<Byte>, dstAt: nat, src: array<Byte>, srcAt: nat, count: nat)
    requires dst != src && dstAt + count <= dst.Length && srcAt + count <= src.Length
    modifies dst
    ensures forall p :: 0 <= p < dst.Length ==>
      dst[p] == if dstAt <= p < dstAt + count then src[srcAt + p - dstAt] else old(dst[p])
  {
    var i := 0;
    while i < count
      invariant 0 <= i <= count
      invariant forall p :: 0 <= p < dst.Length ==>
        dst[p] == if dstAt <= p < dstAt + i then src[srcAt + p - dstAt] else old(dst[p])
    {
      dst[dstAt + i] := src[srcAt + i];
      i := i + 1;
    }
  }

  /** GetMemRegionInfo hands out the two blocks that make up the requested messages. */
  lemma InfoIsBlocks(tx: MemTransaction, quantum: nat, size: nat, startIdx: nat, n: nat)
    requires tx.Fits(quantum, size) && startIdx + n <= tx.Messages()
    ensures var info := tx.GetMemRegionInfo(quantum, startIdx, n);
      && Blocks(tx.first.Bytes(quantum), tx.second.Bytes(quantum), startIdx * quantum, n * quantum,
                Span(info.firstBase, info.firstCount * quantum), Span(info.secondBase, info.secondCount * quantum))
  {
    var info := tx.GetMemRegionInfo(quantum, startIdx, n);
    MulAdd(info.firstCount, info.secondCount, quantum);
    MulAdd(startIdx, info.firstCount, quantum);
    MulAdd(startIdx, n, quantum);
    if startIdx < tx.first.length {
      FirstBlock(tx, quantum, startIdx, n);
    } else {
      MulMonotone(tx.first.length, startIdx, quantum);
      MulAdd(startIdx, tx.first.length, quantum);
      MulAdd(startIdx - tx.first.length, n, quantum);
      MulMonotone(startIdx - tx.first.length + n, tx.second.length, quantum);
    }
  }

  lemma FirstBlock(tx: MemTransaction, quantum: nat, startIdx: nat, n: nat)
    requires startIdx < tx.first.length && startIdx + n <= tx.Messages()
    ensures var info := tx.GetMemRegionInfo(quantum, startIdx, n);
      && (startIdx + info.firstCount) * quantum <= tx.first.length * quantum
      && info.secondCount * quantum <= tx.second.length * quantum
      && (startIdx * quantum + n * quantum > tx.first.length * quantum ==>
            (startIdx + info.firstCount) * quantum == tx.first.length * quantum)
      && (startIdx * quantum < tx.first.length * quantum && n * quantum > 0 ==> info.firstCount * quantum > 0)
      && (info.secondCount * quantum > 0 ==> startIdx + info.firstCount == tx.first.length)
  {
    var info := tx.GetMemRegionInfo(quantum, startIdx, n);
    MulMonotone(startIdx + info.firstCount, tx.first.length, quantum);
    MulMonotone(info.secondCount, tx.second.length, quantum);
    MulAdd(startIdx, n, quantum);
    if startIdx + n <= tx.first.length {
      MulMonotone(startIdx + n, tx.first.length, quantum);
    }
    if n > 0 { MulMonotone(1, info.firstCount, quantum); }
  }

  lemma BlocksAreScatter(before: seq<Byte>, after: seq<Byte>, a: Span, b: Span, start: nat, x: Span, y: Span,
                         data: seq<Byte>)
    requires SpansFit(a, b, |before|) && start + |data| <= a.bytes + b.bytes && Blocks(a, b, start, |data|, x, y)
    requires |after| == |before|
    requires forall p :: 0 <= p < |before| ==>
      after[p] == if y.Covers(p) then data[x.bytes + p - y.base.offset]
                  else if x.Covers(p) then data[p - x.base.offset]
                  else before[p]
    ensures after == ScatterBytes(before, a, b, start, data)
  {
    forall p: nat | p < |before| ensures after[p] == ScatterBytes(before, a, b, start, data)[p] {
      BlockPosition(a, b, |before|, start, |data|, x, y, p);
    }
  }

  lemma BlocksAreGather(ring: seq<Byte>, a: Span, b: Span, start: nat, x: Span, y: Span, data: seq<Byte>)
    requires SpansFit(a, b, |ring|) && start + |data| <= a.bytes + b.bytes && Blocks(a, b, start, |data|, x, y)
    requires forall k :: 0 <= k < |data| ==>
      data[k] == if k < x.bytes then ring[x.base.offset + k] else ring[y.base.offset + (k - x.bytes)]
    ensures data == GatherBytes(ring, a, b, start, |data|)
  {
    forall k: nat | k < |data| ensures data[k] == GatherBytes(ring, a, b, start, |data|)[k] {
      var p := if k < x.bytes then x.base.offset + k else y.base.offset + (k - x.bytes);
      BlockPosition(a, b, |ring|, start, |data|, x, y, p);
      ByteAtPosition(a, b, |ring|, p);
    }
  }

  /** The two memcpy calls of copyTo; memcpy of no bytes is skipped. */
  method StoreBlocks(ring: array<Byte>, x: Span, y: Span, data: array<Byte>, ghost a: Span, ghost b: Span,
                     ghost start: nat, ghost count: nat)
    requires data != ring && count <= data.Length
    requires SpansFit(a, b, ring.Length) && start + count <= a.bytes + b.bytes && Blocks(a, b, start, count, x, y)
    modifies ring
    ensures ring[..] == ScatterBytes(old(ring[..]), a, b, start, data[..count])
  {
    if x.bytes != 0 {
      MemCopy(ring, x.base.offset, data, 0, x.bytes);
    }
    if y.bytes != 0 {
      MemCopy(ring, y.base.offset, data, x.bytes, y.bytes);
    }
    BlocksAreScatter(old(ring[..]), ring[..], a, b, start, x, y, data[..count]);
  }

  /** The two memcpy calls of copyFrom. */
  method LoadBlocks(ring: array<Byte>, x: Span, y: Span, data: array<Byte>, ghost a: Span, ghost b: Span,
                    ghost start: nat, ghost count: nat)
    requires data != ring && count <= data.Length
    requires SpansFit(a, b, ring.Length) && start + count <= a.bytes + b.bytes && Blocks(a, b, start, count, x, y)
    modifies data
    ensures data[..count] == GatherBytes(ring[..], a, b, start, count)
    ensures data[count..] == old(data[count..])
  {
    if x.bytes != 0 {
      MemCopy(data, 0, ring, x.base.offset, x.bytes);
    }
    if y.bytes != 0 {
      MemCopy(data, x.bytes, ring, y.base.offset, y.bytes);
    }
    BlocksAreGather(ring[..], a, b, start, x, y, data[..count]);
  }

  method CopyTo(ring: array<Byte>, tx: MemTransaction, quantum: nat, data: array?<Byte>, startIdx: nat,
                nMessages: nat)
    returns (ok: bool)
    requires tx.Fits(quantum, ring.Length)
    requires data != null ==> data != ring && nMessages * quantum <= data.Length
    modifies ring
    ensures ok <==> data != null && startIdx + nMessages <= tx.Messages()
    ensures ring[..] == if ok then Scatter(old(ring[..]), tx, quantum, startIdx, data[..nMessages * quantum])
                        else old(ring[..])
  {
    if data == null {
      return false;
    }
    var info := tx.GetMemRegionInfo(quantum, startIdx, nMessages);
    if info.Invalid? {
      return false;
    }
    InfoIsBlocks(tx, quantum, ring.Length, startIdx, nMessages);
    RequestInside(tx, quantum, startIdx, nMessages);
    StoreBlocks(ring, Span(info.firstBase, info.firstCount * quantum),
                Span(info.secondBase, info.secondCount * quantum),
                data, tx.first.Bytes(quantum), tx.second.Bytes(quantum), startIdx * quantum, nMessages * quantum);
    return true;
  }

  method CopyFrom(ring: array<Byte>, tx: MemTransaction, quantum: nat, data: array?<Byte>, startIdx: nat,
                nMessages: nat)
    returns (ok: bool)
    requires tx.Fits(quantum, ring.Length)
    requires data != null ==> data != ring && nMessages * quantum <= data.Length
    modifies data
    ensures ok <==> data != null && startIdx + nMessages <= tx.Messages()
    ensures ok ==> data[..nMessages * quantum] == Gather(ring[..], tx, quantum, startIdx, nMessages)
    ensures ok ==> data[nMessages * quantum..] == old(data[nMessages * quantum..])
    ensures !ok && data != null ==> data[..] == old(data[..])
  {
    if data == null {
      return false;
    }
    var info := tx.GetMemRegionInfo(quantum, startIdx, nMessages);
    if info.Invalid? {
      return false;
    }
    InfoIsBlocks(tx, quantum, ring.Length, startIdx, nMessages);
    RequestInside(tx, quantum, startIdx, nMessages);
    LoadBlocks(ring, Span(info.firstBase, info.firstCount * quantum),
               Span(info.secondBase, info.secondCount * quantum),
               data, tx.first.Bytes(quantum), tx.second.Bytes(quantum), startIdx * quantum, nMessages * quantum);
    return true;
  }
}
