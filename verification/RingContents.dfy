/** The relation between a ring and the stream of messages (or bytes) stored into it, in order, since the start. */
module RingContents {
  import opened Arithmetic
  import opened Common
  import opened MemTransactions
  import opened QueueCore

  /** Every element of the stream from index lo on is still in its place. */
  ghost predicate Holds<T>(ring: seq<T>, stream: seq<T>, lo: int) {
    && |ring| > 0
    && forall i :: 0 <= i < |stream| && lo <= i ==> ring[i % |ring|] == stream[i]
  }

  /** Storing the next element costs at most the one that is a full ring behind it. */
  lemma StoreNext<T>(ring: seq<T>, stream: seq<T>, lo: int, x: T)
    requires Holds(ring, stream, lo) && |stream| < lo + |ring|
    ensures Holds(ring[|stream| % |ring| := x], stream + [x], lo)
  {
    var at := |stream|;
    forall i | 0 <= i < at && lo <= i ensures i % |ring| != at % |ring| {
      if i % |ring| == at % |ring| { ModInjective(i, at, |ring|); }
    }
  }

  lemma HoldsLess<T>(ring: seq<T>, stream: seq<T>, lo: int, lo': int)
    requires Holds(ring, stream, lo) && lo <= lo'
    ensures Holds(ring, stream, lo')
  {
  }

  /** Byte k of the transaction granted at message index start is ring byte (start * quantum + k) mod size. */
  lemma GrantedByte(g: Geometry, start: nat, n: nat, k: nat)
    requires g.Valid() && g.Size() > 0 && n <= g.slots && k < n * g.quantum
    ensures var tx := GrantedAt(g, start, n);
      && tx.Fits(g.quantum, g.Size())
      && k < tx.first.Bytes(g.quantum).bytes + tx.second.Bytes(g.quantum).bytes
      && ByteAt(tx.first.Bytes(g.quantum), tx.second.Bytes(g.quantum), g.Size(), k)
         == (start * g.quantum + k) % g.Size()
  {
    var j, b := WhichMessage(0, n, g.quantum, k);
    GrantedMessageByte(g, start, n, j, b);
  }

  lemma GrantedMessageByte(g: Geometry, start: nat, n: nat, j: nat, b: nat)
    requires g.Valid() && g.Size() > 0 && n <= g.slots && j < n && b < g.quantum
    ensures var tx := GrantedAt(g, start, n);
      && tx.Fits(g.quantum, g.Size())
      && j * g.quantum + b < tx.first.Bytes(g.quantum).bytes + tx.second.Bytes(g.quantum).bytes
      && ByteAt(tx.first.Bytes(g.quantum), tx.second.Bytes(g.quantum), g.Size(), j * g.quantum + b)
         == (start * g.quantum + (j * g.quantum + b)) % g.Size()
  {
    OffsetInside(g, start);
    TransactionGeometry(g, start, n);
    SlotIsByteRange(GrantedAt(g, start, n), g.quantum, g.Size(), j, b);
    SlotPosition(g, start, n, j);
    ByteOfSlot(g, start + j, b);
    MulAdd(start, j, g.quantum);
  }

  lemma ByteOfSlot(g: Geometry, i: nat, b: nat)
    requires g.Valid() && g.Size() > 0 && b < g.quantum
    ensures (i * g.quantum + b) % g.Size() == (i % g.slots) * g.quantum + b
  {
    ModScale(i, g.slots, g.quantum);
    ModAdd(i * g.quantum, b, g.Size());
    MessageInside(i % g.slots, g.slots, g.quantum, b);
    QuotientUnique((i % g.slots) * g.quantum + b, g.Size(), 0, (i % g.slots) * g.quantum + b);
  }

  /** Copying n messages into the transaction granted at the end of the stream appends them to the stream. */
  lemma ScatterExtends(g: Geometry, ring: seq<Byte>, stream: seq<Byte>, written: nat, n: nat, data: seq<Byte>)
    requires g.Valid() && g.Size() > 0 && n <= g.slots && |ring| == g.Size()
    requires |stream| == written * g.quantum && |data| == n * g.quantum
    requires Holds(ring, stream, |stream| - g.Size())
    ensures Holds(Scatter(ring, GrantedAt(g, written, n), g.quantum, 0, data), stream + data,
                  |stream| + |data| - g.Size())
  {
    var tx := GrantedAt(g, written, n);
    var ring' := Scatter(ring, tx, g.quantum, 0, data);
    MulMonotone(n, g.slots, g.quantum);
    forall i | 0 <= i < |stream + data| && |stream| + |data| - g.Size() <= i
      ensures ring'[i % g.Size()] == (stream + data)[i]
    {
      ScatteredAt(g, ring, stream, written, n, data, i);
    }
  }

  /** Filling the slots of a granted transaction one by one extends the stream just as a copying write does. */
  lemma FilledSlotsExtend(g: Geometry, ring: seq<Byte>, ring': seq<Byte>, stream: seq<Byte>, written: nat, n: nat,
                          data: seq<Byte>)
    requires g.Valid() && g.Size() > 0 && n <= g.slots && |ring| == g.Size()
    requires |stream| == written * g.quantum && |data| == n * g.quantum
    requires Holds(ring, stream, |stream| - g.Size())
    requires SlotsFilled(ring, ring', GrantedAt(g, written, n), g.quantum, 0, data, n)
    ensures ring' == Scatter(ring, GrantedAt(g, written, n), g.quantum, 0, data)
    ensures Holds(ring', stream + data, |stream| + |data| - g.Size())
  {
    OffsetInside(g, written);
    TransactionGeometry(g, written, n);
    FillingSlotsIsScatter(ring, ring', GrantedAt(g, written, n), g.quantum, 0, data, n);
    ScatterExtends(g, ring, stream, written, n, data);
  }

  lemma ScatteredAt(g: Geometry, ring: seq<Byte>, stream: seq<Byte>, written: nat, n: nat, data: seq<Byte>, i: nat)
    requires g.Valid() && g.Size() > 0 && n <= g.slots && |ring| == g.Size()
    requires |stream| == written * g.quantum && |data| == n * g.quantum
    requires Holds(ring, stream, |stream| - g.Size())
    requires i < |stream| + |data| <= i + g.Size()
    ensures Scatter(ring, GrantedAt(g, written, n), g.quantum, 0, data)[i % g.Size()] == (stream + data)[i]
  {
    var tx := GrantedAt(g, written, n);
    var first, second := tx.first.Bytes(g.quantum), tx.second.Bytes(g.quantum);
    var p := i % g.Size();
    assert 0 * g.quantum == 0;
    if i >= |stream| {
      GrantedByte(g, written, n, i - |stream|);
      ScatteredByte(ring, first, second, 0, data, i - |stream|);
    } else {
      var k := Position(first, second, p);
      if 0 <= k < |data| {
        GrantedByte(g, written, n, k);
        ByteAtPosition(first, second, g.Size(), p);
        ModInjective(i, |stream| + k, g.Size());
      }
    }
  }

  /** The transaction granted at the read position covers the next n messages of the stream. */
  lemma GatherUnread(g: Geometry, ring: seq<Byte>, stream: seq<Byte>, written: nat, start: nat, n: nat)
    requires g.Valid() && g.Size() > 0 && n <= g.slots && |ring| == g.Size()
    requires |stream| == written * g.quantum && start + n <= written <= start + g.slots
    requires Holds(ring, stream, |stream| - g.Size())
    ensures GrantedAt(g, start, n).Fits(g.quantum, |ring|) && GrantedAt(g, start, n).Messages() == n
    ensures start * g.quantum <= start * g.quantum + n * g.quantum <= |stream|
    ensures Gather(ring, GrantedAt(g, start, n), g.quantum, 0, n)
            == stream[start * g.quantum..start * g.quantum + n * g.quantum]
  {
    OffsetInside(g, start);
    TransactionGeometry(g, start, n);
    MulAdd(start, n, g.quantum);
    MulAdd(start, g.slots, g.quantum);
    MulMonotone(start + n, written, g.quantum);
    MulMonotone(written, start + g.slots, g.quantum);
    assert 0 * g.quantum == 0;
    var tx := GrantedAt(g, start, n);
    forall k: nat | k < n * g.quantum
      ensures Gather(ring, tx, g.quantum, 0, n)[k] == stream[start * g.quantum + k]
    {
      GrantedByte(g, start, n, k);
    }
  }
}
