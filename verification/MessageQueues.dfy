/**
 * The queue object: a byte ring and two wrapping counters that its methods load and store.  The calls here are not
 * interleaved; SynchronizedProtocol and UnsynchronizedProtocol add that.
 */
module MessageQueues {
  import opened Arithmetic
  import opened Common
  import opened MemTransactions
  import opened QueueCore
  import opened RingContents

  class MessageQueue {
    const flavor: Flavor
    const g: Geometry
    const ring: array<Byte>
    var readPtr: UInt64
    var writePtr: UInt64

    /** Every byte written since the start, and how many messages were written and read (or skipped). */
    ghost var stream: seq<Byte>
    ghost var written: nat
    ghost var consumed: nat

    ghost predicate WellFormed() {
      g.Valid() && ring.Length == g.Size() && g.Size() > 0
    }

    ghost predicate Valid()
      reads this, ring
    {
      && WellFormed()
      && |stream| == written * g.quantum
      && consumed <= written && (written - consumed) * g.quantum < TWO64
      && (flavor.SynchronizedReadWrite? ==> written - consumed <= g.slots)
      && writePtr == Counter(g, written) && readPtr == Counter(g, consumed)
      && Exact(g, written)
      && Holds(ring[..], stream, |stream| - g.Size())
    }

    /** A queue over freshly mapped memory, with both counters reset. */
    constructor (flavor: Flavor, g: Geometry)
      requires g.Valid()
      ensures Valid() && fresh(ring) && this.flavor == flavor && this.g == g
      ensures stream == [] && written == 0 && consumed == 0
    {
      this.flavor := flavor;
      this.g := g;
      ring := new Byte[g.Size()](_ => 0);
      readPtr, writePtr := 0, 0;
      stream, written, consumed := [], 0, 0;
      new;
      SizePositive(g);
      assert Counter(g, 0) == 0;
    }

    /** The caller's transaction object comes in as given and is left alone when the counter is misaligned. */
    method BeginWrite(nMessages: nat, given: MemTransaction) returns (ok: bool, tx: MemTransaction)
      requires WellFormed()
      ensures var decision := QueueCore.BeginWrite(g, flavor, writePtr, readPtr, writePtr, nMessages);
        match decision
        case Granted(granted) => ok && tx == granted
        case Misaligned => !ok && tx == given
        case _ => !ok && tx == NO_TRANSACTION
      ensures ok ==> writePtr % g.quantum == 0 && tx.Messages() == nMessages && tx.Fits(g.quantum, ring.Length)
      ensures Valid() ==>
        (ok <==> nMessages <= if flavor.SynchronizedReadWrite? then consumed + g.slots - written else g.slots)
      ensures Valid() && ok ==> tx == GrantedAt(g, written, nMessages)
    {
      GrantedWriteInRing(g, flavor, writePtr, readPtr, writePtr, nMessages);
      if Valid() { BeginWriteExact(g, flavor, written, consumed, nMessages); }
      if (flavor.SynchronizedReadWrite? && AvailableToWrite(g, writePtr, readPtr) < nMessages)
         || nMessages > g.QuantumCount() {
        return false, NO_TRANSACTION;
      }
      if writePtr % g.quantum != 0 {
        return false, given;
      }
      return true, TransactionAt(g, writePtr % g.Size(), nMessages);
    }

    /** For memory that now holds data in the slots of the transaction. */
    method CommitWrite(nMessages: nat, ghost data: seq<Byte>)
      requires WellFormed() && |data| == nMessages * g.quantum && nMessages <= g.slots
      requires |stream| == written * g.quantum && writePtr == Counter(g, written) && readPtr == Counter(g, consumed)
      requires consumed <= written && (written + nMessages - consumed) * g.quantum < TWO64
      requires flavor.SynchronizedReadWrite? ==> written + nMessages - consumed <= g.slots
      requires Exact(g, written + nMessages)
      requires Holds(ring[..], stream + data, |stream| + |data| - g.Size())
      modifies this
      ensures Valid() && stream == old(stream) + data && written == old(written) + nMessages
      ensures consumed == old(consumed) && readPtr == old(readPtr)
    {
      CounterAfter(g, written, nMessages);
      MulAdd(written, nMessages, g.quantum);
      writePtr := WrapAdd(writePtr, nMessages * g.quantum);
      stream, written := stream + data, written + nMessages;
    }

    method Write(data: array?<Byte>, nMessages: nat) returns (ok: bool)
      requires Valid()
      requires data != null ==> data != ring && nMessages * g.quantum <= data.Length
      requires nMessages <= g.slots ==>
        Exact(g, written + nMessages) && (written + nMessages - consumed) * g.quantum < TWO64
      modifies this, ring
      ensures Valid()
      ensures ok <==> (data != null &&
        nMessages <= if flavor.SynchronizedReadWrite? then old(consumed) + g.slots - old(written) else g.slots)
      ensures ok ==> stream == old(stream) + old(data[..nMessages * g.quantum]) && written == old(written) + nMessages
      ensures !ok ==> stream == old(stream) && written == old(written) && ring[..] == old(ring[..])
      ensures consumed == old(consumed)
    {
      var begun, tx := BeginWrite(nMessages, NO_TRANSACTION);
      if !begun {
        return false;
      }
      var copied := CopyTo(ring, tx, g.quantum, data, 0, nMessages);
      if !copied {
        return false;
      }
      ghost var bytes := data[..nMessages * g.quantum];
      ScatterExtends(g, old(ring[..]), stream, written, nMessages, bytes);
      CommitWrite(nMessages, bytes);
      return true;
    }

    method BeginRead(nMessages: nat) returns (ok: bool, tx: MemTransaction)
      requires WellFormed() && nMessages * g.quantum < TWO64
      modifies this
      ensures writePtr == old(writePtr) && stream == old(stream) && written == old(written)
      ensures var decision := QueueCore.BeginRead(g, writePtr, old(readPtr), nMessages);
        match decision
        case Granted(granted) => ok && tx == granted && readPtr == old(readPtr) && consumed == old(consumed)
        case Overwritten => !ok && tx == NO_TRANSACTION && readPtr == writePtr && consumed == written
        case _ => !ok && tx == NO_TRANSACTION && readPtr == old(readPtr) && consumed == old(consumed)
      ensures ok ==> writePtr % g.quantum == 0 && readPtr % g.quantum == 0
      ensures ok ==> tx.Messages() == nMessages && tx.Fits(g.quantum, ring.Length)
      ensures old(Valid()) ==> Valid()
      ensures old(Valid()) ==> (ok <==> nMessages <= written - old(consumed) <= g.slots)
      ensures old(Valid()) ==> consumed == if written - old(consumed) > g.slots then written else old(consumed)
      ensures old(Valid()) && ok ==> tx == GrantedAt(g, consumed, nMessages)
    {
      GrantedReadInRing(g, writePtr, readPtr, nMessages);
      if Valid() {
        ExactBelow(g, consumed, written);
        BeginReadExact(g, written, consumed, nMessages);
        assert 0 * g.quantum == 0;
      }
      tx := NO_TRANSACTION;
      if writePtr % g.quantum != 0 || readPtr % g.quantum != 0 {
        return false, tx;
      }
      if WrapSub(writePtr, readPtr) > g.Size() {
        readPtr := writePtr;
        consumed := written;
        return false, tx;
      }
      if WrapSub(writePtr, readPtr) < nMessages * g.quantum {
        return false, tx;
      }
      return true, TransactionAt(g, readPtr % g.Size(), nMessages);
    }

    method CommitRead(nMessages: nat) returns (ok: bool)
      requires Valid() && consumed + nMessages <= written
      modifies this
      ensures Valid()
      ensures ok <==> written - old(consumed) <= g.slots
      ensures consumed == if ok then old(consumed) + nMessages else written
      ensures writePtr == old(writePtr) && stream == old(stream) && written == old(written)
    {
      CommitReadExact(g, written, consumed, nMessages);
      MulMonotone(written - consumed - nMessages, written - consumed, g.quantum);
      assert 0 * g.quantum == 0;
      if WrapSub(writePtr, readPtr) > g.Size() {
        readPtr := writePtr;
        consumed := written;
        return false;
      }
      readPtr := WrapAdd(readPtr, nMessages * g.quantum);
      consumed := consumed + nMessages;
      return true;
    }

    method Read(data: array?<Byte>, nMessages: nat) returns (ok: bool)
      requires Valid() && nMessages * g.quantum < TWO64
      requires data != null ==> data != ring && nMessages * g.quantum <= data.Length
      modifies this, data
      ensures Valid()
      ensures ok <==> data != null && nMessages <= written - old(consumed) <= g.slots
      ensures ok ==>
        (var from, bytes := old(consumed) * g.quantum, nMessages * g.quantum;
         from + bytes <= |stream| && data[..bytes] == stream[from..from + bytes])
      ensures ok ==> consumed == old(consumed) + nMessages
      ensures ok ==> data[nMessages * g.quantum..] == old(data[nMessages * g.quantum..])
      ensures !ok ==> consumed == if written - old(consumed) > g.slots then written else old(consumed)
      ensures writePtr == old(writePtr) && stream == old(stream) && written == old(written)
    {
      var begun, tx := BeginRead(nMessages);
      if !begun {
        return false;
      }
      var copied := CopyFrom(ring, tx, g.quantum, data, 0, nMessages);
      if !copied {
        return false;
      }
      GatherUnread(g, ring[..], stream, written, consumed, nMessages);
      ok := CommitRead(nMessages);
    }
  }
}
