/**
 * What beginWrite, beginRead and commitRead decide from the counter values they have loaded.  Counters are 64-bit
 * byte counts that wrap; the class MessageQueue and the interleaved protocols all use these functions.
 */
module QueueCore {
  import opened Arithmetic
  import opened Common
  import opened MemTransactions

  function WrapAdd(a: int, b: int): UInt64 { (a + b) % TWO64 }

  function WrapSub(a: int, b: int): UInt64 { (a - b) % TWO64 }

  datatype Flavor = SynchronizedReadWrite | UnsynchronizedWrite

  /** A ring of slots messages of quantum bytes each. */
  datatype Geometry = Geometry(slots: nat, quantum: nat) {
    function Size(): nat { slots * quantum }

    ghost predicate Valid() { slots > 0 && quantum > 0 && Size() < TWO64 }

    /** getQuantumCount. */
    function QuantumCount(): nat
      requires quantum > 0
    {
      Size() / quantum
    }
  }

  // ------------------------------------------------------------------ decisions of the code

  function AvailableToReadBytes(w: UInt64, r: UInt64): UInt64 { WrapSub(w, r) }

  function AvailableToWriteBytes(g: Geometry, w: UInt64, r: UInt64): UInt64 {
    WrapSub(g.Size(), AvailableToReadBytes(w, r))
  }

  function AvailableToRead(g: Geometry, w: UInt64, r: UInt64): nat
    requires g.quantum > 0
  {
    AvailableToReadBytes(w, r) / g.quantum
  }

  function AvailableToWrite(g: Geometry, w: UInt64, r: UInt64): nat
    requires g.quantum > 0
  {
    AvailableToWriteBytes(g, w, r) / g.quantum
  }

  /** The regions for nMessages messages from byte offset of the ring on. */
  function TransactionAt(g: Geometry, offset: nat, nMessages: nat): MemTransaction
    requires g.quantum > 0 && offset <= g.Size()
  {
    var contiguous := (g.Size() - offset) / g.quantum;
    if contiguous < nMessages then
      MemTransaction(MemRegion(At(offset), contiguous), MemRegion(At(0), nMessages - contiguous))
    else
      MemTransaction(MemRegion(At(offset), nMessages), NO_REGION)
  }

  datatype Begin =
    | Granted(tx: MemTransaction)
    | Refused                       // returns false and a transaction of null addresses
    | Misaligned                    // returns false; beginWrite leaves its out-parameter alone
    | Overwritten                   // returns false and moves the read counter up to the write counter

  /** beginWrite: w0 and r are the loads of availableToWrite, w the load that follows them. */
  function BeginWrite(g: Geometry, flavor: Flavor, w0: UInt64, r: UInt64, w: UInt64, nMessages: nat): Begin
    requires g.Valid()
  {
    if (flavor.SynchronizedReadWrite? && AvailableToWrite(g, w0, r) < nMessages) || nMessages > g.QuantumCount() then
      Refused
    else if w % g.quantum != 0 then Misaligned
    else
      MulStrict(0, g.slots, g.quantum);
      Granted(TransactionAt(g, w % g.Size(), nMessages))
  }

  function CommitWrite(g: Geometry, w: UInt64, nMessages: nat): UInt64 { WrapAdd(w, nMessages * g.quantum) }

  function BeginRead(g: Geometry, w: UInt64, r: UInt64, nMessages: nat): Begin
    requires g.Valid()
  {
    if w % g.quantum != 0 || r % g.quantum != 0 then Misaligned
    else if WrapSub(w, r) > g.Size() then Overwritten
    else if WrapSub(w, r) < nMessages * g.quantum then Refused
    else
      MulStrict(0, g.slots, g.quantum);
      Granted(TransactionAt(g, r % g.Size(), nMessages))
  }

  /** commitRead: None when an overwrite is detected, else the new read counter. */
  datatype Commit = Lost | Advanced(r: UInt64)

  function CommitRead(g: Geometry, w: UInt64, r: UInt64, nMessages: nat): Commit {
    if WrapSub(w, r) > g.Size() then Lost else Advanced(WrapAdd(r, nMessages * g.quantum))
  }

  // ------------------------------------------------------------------ counters as wrapped message counts

  /** The byte counter after a total of messages messages. */
  function Counter(g: Geometry, messages: nat): UInt64 { (messages * g.quantum) % TWO64 }

  /** The ring offset computed from a counter is right: no wrap so far, or a wrap that the ring does not notice. */
  ghost predicate Exact(g: Geometry, messages: nat)
    requires g.Size() > 0
  {
    TWO64 % g.Size() == 0 || messages * g.quantum < TWO64
  }

  lemma SizePositive(g: Geometry)
    requires g.Valid()
    ensures g.Size() > 0 && g.QuantumCount() == g.slots && g.quantum <= g.Size()
  {
    MulStrict(0, g.slots, g.quantum);
    MulMonotone(1, g.slots, g.quantum);
    ModMultiple(g.slots, g.quantum);
  }

  lemma ExactOffset(g: Geometry, messages: nat)
    requires g.Valid() && g.Size() > 0 && Exact(g, messages)
    ensures Counter(g, messages) % g.Size() == (messages % g.slots) * g.quantum
    ensures Counter(g, messages) % g.quantum == 0
  {
    ModScale(messages, g.slots, g.quantum);
    ModMultiple(messages, g.quantum);
    if messages * g.quantum < TWO64 {
      QuotientUnique(messages * g.quantum, TWO64, 0, messages * g.quantum);
    } else {
      ModNested(messages * g.quantum, TWO64, g.Size());
      SizeDividesQuantumDivides(g);
      ModNested(messages * g.quantum, TWO64, g.quantum);
    }
  }

  lemma SizeDividesQuantumDivides(g: Geometry)
    requires g.Valid() && g.Size() > 0 && TWO64 % g.Size() == 0
    ensures TWO64 % g.quantum == 0
  {
    var k := TWO64 / g.Size();
    assert TWO64 == (k * g.slots) * g.quantum by { assert TWO64 == k * g.Size(); }
    ModMultiple(k * g.slots, g.quantum);
  }

  /**
   * Offsets survive counter wrap exactly when the ring size divides 2^64: otherwise some counter value is off as soon
   * as 2^64 bytes have been written.
   */
  lemma OffsetsSurviveWrapIff(g: Geometry)
    requires g.Valid() && g.Size() > 0
    ensures (forall messages: nat :: Counter(g, messages) % g.Size() == (messages % g.slots) * g.quantum)
            <==> TWO64 % g.Size() == 0
  {
    if TWO64 % g.Size() == 0 {
      forall messages: nat ensures Counter(g, messages) % g.Size() == (messages % g.slots) * g.quantum {
        ExactOffset(g, messages);
      }
    } else {
      var k := FirstWrongOffset(g);
    }
  }

  lemma FirstWrongOffset(g: Geometry) returns (messages: nat)
    requires g.Valid() && g.Size() > 0 && TWO64 % g.Size() != 0
    ensures Counter(g, messages) % g.Size() != (messages % g.slots) * g.quantum
  {
    SizePositive(g);
    var q := g.quantum;
    messages := (TWO64 + q - 1) / q;
    var over := messages * q - TWO64;
    assert 0 <= over < q;
    QuotientUnique(messages * q, TWO64, 1, over);
    QuotientUnique(over, g.Size(), 0, over);
    if over == (messages % g.slots) * q {
      if messages % g.slots > 0 { MulMonotone(1, messages % g.slots, q); }
      assert over == 0;
      ModScale(messages, g.slots, q);
    }
  }

  // ------------------------------------------------------------------ transaction geometry

  /** The transaction granted at message index start covers ring slots start .. start + n, modulo the slot count. */
  lemma TransactionGeometry(g: Geometry, start: nat, n: nat)
    requires g.Valid() && g.Size() > 0 && n <= g.slots
    requires (start % g.slots) * g.quantum <= g.Size()
    ensures var tx := TransactionAt(g, (start % g.slots) * g.quantum, n);
      && tx.Messages() == n
      && tx.Fits(g.quantum, g.Size())
      && tx.first == MemRegion(At((start % g.slots) * g.quantum), tx.first.length)
      && tx.first.length == (if n <= g.slots - start % g.slots then n else g.slots - start % g.slots)
      && tx.second == (if tx.first.length < n then MemRegion(At(0), n - tx.first.length) else NO_REGION)
  {
    var s := start % g.slots;
    assert g.Size() - s * g.quantum == (g.slots - s) * g.quantum;
    ModMultiple(g.slots - s, g.quantum);
    if n <= g.slots - s {
      MulMonotone(n, g.slots - s, g.quantum);
    } else {
      MulMonotone(n - (g.slots - s), s, g.quantum);
    }
  }

  lemma OffsetInside(g: Geometry, start: nat)
    requires g.Valid() && g.Size() > 0
    ensures (start % g.slots) * g.quantum < g.Size()
  {
    MulStrict(start % g.slots, g.slots, g.quantum);
  }

  /** Slot j of the transaction granted at message index start is ring slot (start + j) mod slots. */
  lemma SlotPosition(g: Geometry, start: nat, n: nat, j: nat)
    requires g.Valid() && g.Size() > 0 && n <= g.slots && j < n
    requires (start % g.slots) * g.quantum <= g.Size()
    ensures TransactionAt(g, (start % g.slots) * g.quantum, n).GetSlot(g.quantum, j)
            == At(((start + j) % g.slots) * g.quantum)
  {
    TransactionGeometry(g, start, n);
    var s := start % g.slots;
    ModAdd(start, j, g.slots);
    if j < g.slots - s {
      QuotientUnique(s + j, g.slots, 0, s + j);
      assert (s + j) * g.quantum == s * g.quantum + j * g.quantum;
    } else {
      QuotientUnique(s + j, g.slots, 1, s + j - g.slots);
    }
  }

  /** The transaction for n messages from message index start on. */
  function GrantedAt(g: Geometry, start: nat, n: nat): MemTransaction
    requires g.slots > 0 && g.quantum > 0
  {
    MulMonotone(start % g.slots, g.slots, g.quantum);
    TransactionAt(g, (start % g.slots) * g.quantum, n)
  }

  /** The ring slot behind slot j of a transaction, counted in messages; -1 for a null address. */
  function RingSlot(g: Geometry, tx: MemTransaction, j: nat): int
    requires g.quantum > 0
  {
    match tx.GetSlot(g.quantum, j)
    case Null => -1
    case At(offset) => offset / g.quantum
  }

  lemma RingSlotIs(g: Geometry, start: nat, n: nat, j: nat)
    requires g.Valid() && n <= g.slots && j < n
    ensures RingSlot(g, GrantedAt(g, start, n), j) == (start + j) % g.slots
  {
    SizePositive(g);
    OffsetInside(g, start);
    SlotPosition(g, start, n, j);
    ModMultiple((start + j) % g.slots, g.quantum);
  }

  lemma ExactBelow(g: Geometry, a: nat, b: nat)
    requires g.Size() > 0 && Exact(g, b) && a <= b
    ensures Exact(g, a)
  {
    MulMonotone(a, b, g.quantum);
  }

  // ------------------------------------------------------------------ the decisions on exact counters

  lemma WrapDifference(g: Geometry, w: nat, r: nat)
    requires g.Valid() && r <= w && (w - r) * g.quantum < TWO64
    ensures WrapSub(Counter(g, w), Counter(g, r)) == (w - r) * g.quantum
  {
    ModSub(w * g.quantum, r * g.quantum, TWO64);
    assert w * g.quantum - r * g.quantum == (w - r) * g.quantum;
    QuotientUnique((w - r) * g.quantum, TWO64, 0, (w - r) * g.quantum);
  }

  /**
   * The unread messages are counted right however far the reader has fallen behind.  The free slots are right up to a
   * full ring; a reader further behind makes the subtraction wrap.
   */
  lemma AvailabilityExact(g: Geometry, w: nat, r: nat)
    requires g.Valid() && r <= w && (w - r) * g.quantum < TWO64
    ensures AvailableToRead(g, Counter(g, w), Counter(g, r)) == w - r
    ensures w - r <= g.slots ==> AvailableToWrite(g, Counter(g, w), Counter(g, r)) == g.slots - (w - r)
    ensures w - r > g.slots ==>
      AvailableToWriteBytes(g, Counter(g, w), Counter(g, r)) == TWO64 - (w - r - g.slots) * g.quantum
  {
    SizePositive(g);
    WrapDifference(g, w, r);
    ModMultiple(w - r, g.quantum);
    var free := (g.slots - (w - r)) * g.quantum;
    assert g.Size() - (w - r) * g.quantum == free;
    if w - r <= g.slots {
      MulMonotone(0, g.slots - (w - r), g.quantum);
      QuotientUnique(free, TWO64, 0, free);
      ModMultiple(g.slots - (w - r), g.quantum);
    } else {
      MulStrict(g.slots, w - r, g.quantum);
      QuotientUnique(free, TWO64, -1, free + TWO64);
      assert free == -((w - r - g.slots) * g.quantum);
    }
  }

  /** Both ends of a ring that is at most full. */
  lemma WithinRing(g: Geometry, w: nat, r: nat)
    requires g.Valid() && r <= w <= r + g.slots
    ensures (w - r) * g.quantum <= g.Size()
  {
    MulMonotone(w - r, g.slots, g.quantum);
  }

  // ------------------------------------------------------------------ the decisions on arbitrary counters

  lemma AlignedOffset(g: Geometry, counter: UInt64)
    requires g.Valid() && g.Size() > 0 && counter % g.quantum == 0
    ensures counter % g.Size() == ((counter / g.quantum) % g.slots) * g.quantum
  {
    assert counter == (counter / g.quantum) * g.quantum;
    ModScale(counter / g.quantum, g.slots, g.quantum);
  }

  lemma AlignedTransaction(g: Geometry, counter: UInt64, n: nat)
    requires g.Valid() && g.Size() > 0 && counter % g.quantum == 0 && n <= g.slots
    ensures TransactionAt(g, counter % g.Size(), n) == GrantedAt(g, counter / g.quantum, n)
    ensures GrantedAt(g, counter / g.quantum, n).Messages() == n
    ensures GrantedAt(g, counter / g.quantum, n).Fits(g.quantum, g.Size())
  {
    AlignedOffset(g, counter);
    OffsetInside(g, counter / g.quantum);
    TransactionGeometry(g, counter / g.quantum, n);
  }

  /**
   * Whatever values the shared counters have, a write is never granted at a misaligned counter, and every write that
   * is granted has all its messages whole and inside the ring.
   */
  lemma GrantedWriteInRing(g: Geometry, flavor: Flavor, w0: UInt64, r: UInt64, w: UInt64, n: nat)
    requires g.Valid()
    ensures var decision := BeginWrite(g, flavor, w0, r, w, n);
      && !decision.Overwritten?
      && (w % g.quantum != 0 ==> !decision.Granted?)
      && (decision.Refused? <==> n > g.slots || (flavor.SynchronizedReadWrite? && n > AvailableToWrite(g, w0, r)))
      && (decision.Granted? ==>
            n <= g.slots && decision.tx == GrantedAt(g, w / g.quantum, n)
            && decision.tx.Messages() == n && decision.tx.Fits(g.quantum, g.Size()))
  {
    SizePositive(g);
    if w % g.quantum == 0 && n <= g.slots { AlignedTransaction(g, w, n); }
  }

  /** The same for reads, where either counter may be misaligned. */
  lemma GrantedReadInRing(g: Geometry, w: UInt64, r: UInt64, n: nat)
    requires g.Valid()
    ensures var decision := BeginRead(g, w, r, n);
      && (decision.Misaligned? <==> w % g.quantum != 0 || r % g.quantum != 0)
      && (decision.Granted? ==>
            n <= g.slots && decision.tx == GrantedAt(g, r / g.quantum, n)
            && decision.tx.Messages() == n && decision.tx.Fits(g.quantum, g.Size()))
  {
    SizePositive(g);
    MulStrict(g.slots, n, g.quantum);
    if r % g.quantum == 0 && n <= g.slots { AlignedTransaction(g, r, n); }
  }

  // ------------------------------------------------------------------ the decisions on exact counters, in messages

  /** beginWrite on counters of w written and r read messages. */
  lemma BeginWriteExact(g: Geometry, flavor: Flavor, w: nat, r: nat, n: nat)
    requires g.Valid() && g.Size() > 0 && Exact(g, w)
    requires flavor.SynchronizedReadWrite? ==> r <= w <= r + g.slots
    ensures (w % g.slots) * g.quantum < g.Size()
    ensures BeginWrite(g, flavor, Counter(g, w), Counter(g, r), Counter(g, w), n)
            == if n <= (if flavor.SynchronizedReadWrite? then r + g.slots - w else g.slots)
               then Granted(TransactionAt(g, (w % g.slots) * g.quantum, n)) else Refused
  {
    SizePositive(g);
    OffsetInside(g, w);
    ExactOffset(g, w);
    if flavor.SynchronizedReadWrite? {
      WithinRing(g, w, r);
      AvailabilityExact(g, w, r);
    }
  }

  /** beginRead on counters of w written and r read messages, however far the reader has fallen behind. */
  lemma BeginReadExact(g: Geometry, w: nat, r: nat, n: nat)
    requires g.Valid() && g.Size() > 0 && Exact(g, w) && Exact(g, r) && r <= w && (w - r) * g.quantum < TWO64
    ensures (r % g.slots) * g.quantum < g.Size()
    ensures BeginRead(g, Counter(g, w), Counter(g, r), n)
            == if w - r > g.slots then Overwritten
               else if w - r < n then Refused
               else Granted(TransactionAt(g, (r % g.slots) * g.quantum, n))
  {
    OffsetInside(g, r);
    ExactOffset(g, w);
    ExactOffset(g, r);
    WrapDifference(g, w, r);
    MulStrict(g.slots, w - r, g.quantum);
    MulStrict(w - r, n, g.quantum);
  }

  lemma CommitReadExact(g: Geometry, w: nat, r: nat, n: nat)
    requires g.Valid() && r <= w && (w - r) * g.quantum < TWO64
    ensures CommitRead(g, Counter(g, w), Counter(g, r), n)
            == if w - r > g.slots then Lost else Advanced(Counter(g, r + n))
  {
    WrapDifference(g, w, r);
    MulStrict(g.slots, w - r, g.quantum);
    CounterAfter(g, r, n);
  }

  lemma CounterAfter(g: Geometry, k: nat, n: nat)
    ensures WrapAdd(Counter(g, k), n * g.quantum) == Counter(g, k + n)
  {
    ModAdd(k * g.quantum, n * g.quantum, TWO64);
    assert k * g.quantum + n * g.quantum == (k + n) * g.quantum;
  }
}
