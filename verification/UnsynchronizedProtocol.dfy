/**
 * One writer and any number of readers on an unsynchronized queue, interleaved at every access to the shared write
 * counter and every copied message.  Each reader has a read counter of its own that starts at 0, so a reader that
 * attaches late is a reader that has not moved yet.
 */
module UnsynchronizedProtocol {
  import opened Arithmetic
  import opened Common
  import opened MemTransactions
  import opened QueueCore
  import opened RingContents

  datatype Writer<T> =
    | WriterIdle
    | WriterCopying(data: seq<T>, tx: MemTransaction, done: nat)

  /** frontiers is history: how many messages had been stored when each element of out was copied. */
  datatype ReaderPc<T> =
    | ReaderIdle
    | ReaderCopying(n: nat, tx: MemTransaction, out: seq<T>, frontiers: seq<nat>)

  /**
   * What became of a range of stream indices: handed to the caller, with the number of messages stored at the time of
   * the commit, or skipped by moving the read counter up to the write counter.
   */
  datatype Range<T> =
    | Delivered(lo: nat, out: seq<T>, frontier: nat)
    | Skipped(lo: nat, upTo: nat)
  {
    function Hi(): nat { if Delivered? then lo + |out| else upTo }
  }

  /** at and log are history: the read position without wrapping, and what happened to every range before it. */
  datatype Reader<T> = Reader(r: UInt64, pc: ReaderPc<T>, at: nat, log: seq<Range<T>>)

  /** written is history: the messages of all committed writes. */
  datatype State<T> = State(ring: seq<T>, w: UInt64, writer: Writer<T>, readers: seq<Reader<T>>, written: seq<T>)

  datatype Step<T> =
    | WriterBegin(data: seq<T>)
    | WriterCopy
    | WriterCommit
    | ReaderBegin(i: nat, n: nat)
    | ReaderCopy(i: nat)
    | ReaderCommit(i: nat)
  {
    predicate Of(reader: nat) { (ReaderBegin? || ReaderCopy? || ReaderCommit?) && i == reader }
  }

  predicate Initial<T(==)>(g: Geometry, s: State<T>) {
    && |s.ring| == g.slots && s.w == 0 && s.writer == WriterIdle && s.written == []
    && forall i :: 0 <= i < |s.readers| ==> s.readers[i] == Reader(0, ReaderIdle, 0, [])
  }

  predicate Enabled<T>(g: Geometry, s: State<T>, step: Step<T>)
    requires g.quantum > 0
  {
    match step
    case WriterBegin(_) => s.writer.WriterIdle?
    case WriterCopy =>
      s.writer.WriterCopying? && s.writer.done < |s.writer.data|
      && 0 <= RingSlot(g, s.writer.tx, s.writer.done) < |s.ring|
    case WriterCommit => s.writer.WriterCopying? && s.writer.done == |s.writer.data|
    case ReaderBegin(i, n) => i < |s.readers| && s.readers[i].pc.ReaderIdle? && n * g.quantum < TWO64
    case ReaderCopy(i) =>
      i < |s.readers| && s.readers[i].pc.ReaderCopying? && |s.readers[i].pc.out| < s.readers[i].pc.n
      && 0 <= RingSlot(g, s.readers[i].pc.tx, |s.readers[i].pc.out|) < |s.ring|
    case ReaderCommit(i) =>
      i < |s.readers| && s.readers[i].pc.ReaderCopying? && |s.readers[i].pc.out| == s.readers[i].pc.n
  }

  /** Everything stored so far: the committed messages and those of the open write. */
  function Stored<T>(s: State<T>): seq<T> {
    if s.writer.WriterCopying? && s.writer.done <= |s.writer.data|
    then s.written + s.writer.data[..s.writer.done] else s.written
  }

  /** The read counter is moved up to the write counter; total counts the messages written. */
  function Resync<T>(reader: Reader<T>, w: UInt64, total: nat): Reader<T> {
    Reader(w, ReaderIdle, total, reader.log + [Skipped(reader.at, total)])
  }

  function Begin<T>(g: Geometry, reader: Reader<T>, w: UInt64, total: nat, n: nat): Reader<T>
    requires g.Valid()
  {
    match BeginRead(g, w, reader.r, n)
    case Granted(tx) => reader.(pc := ReaderCopying(n, tx, [], []))
    case Overwritten => Resync(reader, w, total)
    case _ => reader
  }

  function Copy<T>(g: Geometry, reader: Reader<T>, ring: seq<T>, stored: nat): Reader<T>
    requires g.quantum > 0 && reader.pc.ReaderCopying? && 0 <= RingSlot(g, reader.pc.tx, |reader.pc.out|) < |ring|
  {
    var ReaderCopying(n, tx, out, frontiers) := reader.pc;
    reader.(pc := ReaderCopying(n, tx, out + [ring[RingSlot(g, tx, |out|)]], frontiers + [stored]))
  }

  function Commit<T>(g: Geometry, reader: Reader<T>, w: UInt64, total: nat, stored: nat): Reader<T>
    requires reader.pc.ReaderCopying?
  {
    match CommitRead(g, w, reader.r, reader.pc.n)
    case Lost => Resync(reader, w, total)
    case Advanced(r) =>
      Reader(r, ReaderIdle, reader.at + reader.pc.n, reader.log + [Delivered(reader.at, reader.pc.out, stored)])
  }

  function Apply<T>(g: Geometry, s: State<T>, step: Step<T>): State<T>
    requires g.Valid() && Enabled(g, s, step)
  {
    match step
    case WriterBegin(data) =>
      s.(writer := match BeginWrite(g, UnsynchronizedWrite, s.w, 0, s.w, |data|)
         case Granted(tx) => WriterCopying(data, tx, 0)
         case _ => WriterIdle)
    case WriterCopy =>
      var WriterCopying(data, tx, done) := s.writer;
      s.(ring := s.ring[RingSlot(g, tx, done) := data[done]], writer := WriterCopying(data, tx, done + 1))
    case WriterCommit =>
      s.(writer := WriterIdle, w := CommitWrite(g, s.w, |s.writer.data|), written := s.written + s.writer.data)
    case ReaderBegin(i, n) => s.(readers := s.readers[i := Begin(g, s.readers[i], s.w, |s.written|, n)])
    case ReaderCopy(i) => s.(readers := s.readers[i := Copy(g, s.readers[i], s.ring, |Stored(s)|)])
    case ReaderCommit(i) => s.(readers := s.readers[i := Commit(g, s.readers[i], s.w, |s.written|, |Stored(s)|)])
  }

  /** A schedule is legal when each of its steps is enabled in turn. */
  ghost predicate Legal<T>(g: Geometry, s: State<T>, schedule: seq<Step<T>>)
    requires g.Valid()
    decreases |schedule|, 0
  {
    schedule == [] || (Legal(g, s, Front(schedule)) && Enabled(g, After(g, s, Front(schedule)), Last(schedule)))
  }

  ghost function After<T>(g: Geometry, s: State<T>, schedule: seq<Step<T>>): State<T>
    requires g.Valid() && Legal(g, s, schedule)
    decreases |schedule|, 1
  {
    if schedule == [] then s else Apply(g, After(g, s, Front(schedule)), Last(schedule))
  }

  // ------------------------------------------------------------------ the invariant

  /** The newest of the first stored stream indices that uses the same slot as index i. */
  ghost function Latest(g: Geometry, i: nat, stored: nat): (k: nat)
    requires g.slots > 0 && i < stored
    ensures i <= k < stored <= k + g.slots && k % g.slots == i % g.slots
    ensures k == i <==> stored <= i + g.slots
  {
    SameSlot(g.slots, i, stored - 1);
    stored - 1 - (stored - 1 - i) % g.slots
  }

  lemma SameSlot(slots: nat, i: nat, last: nat)
    requires slots > 0 && i <= last
    ensures (last - i) % slots <= last - i
    ensures (last - (last - i) % slots) % slots == i % slots
    ensures (last - i) % slots == last - i <==> last - i < slots
  {
    var turns := (last - i) / slots;
    assert last - i == turns * slots + (last - i) % slots;
    MulMonotone(0, turns, slots);
    ModShift(i, turns, slots);
    if last - i < slots { QuotientUnique(last - i, slots, 0, last - i); }
  }

  ghost predicate CopyOk<T>(g: Geometry, stored: seq<T>, at: nat, pc: ReaderPc<T>)
    requires g.slots > 0 && pc.ReaderCopying?
  {
    && |pc.frontiers| == |pc.out| <= pc.n
    && forall j :: 0 <= j < |pc.out| ==>
         at + j < pc.frontiers[j] <= |stored| && pc.out[j] == stored[Latest(g, at + j, pc.frontiers[j])]
  }

  /** A delivered element is the one written at its index unless the writer had come around to its slot. */
  ghost predicate RangeOk<T>(g: Geometry, stored: seq<T>, range: Range<T>) {
    match range
    case Delivered(lo, out, frontier) =>
      && lo + |out| <= |stored|
      && forall j :: 0 <= j < |out| && frontier <= lo + j + g.slots ==> out[j] == stored[lo + j]
    case Skipped(lo, upTo) => lo + g.slots < upTo <= |stored|
  }

  /** The ranges follow one another without gap or overlap, from index 0 to the read position. */
  ghost predicate Chain<T>(log: seq<Range<T>>, at: nat) {
    && (log == [] ==> at == 0)
    && (log != [] ==> log[0].lo == 0 && Last(log).Hi() == at)
    && (forall i :: 0 <= i < |log| ==> log[i].lo <= log[i].Hi())
    && (forall i :: 0 < i < |log| ==> log[i - 1].Hi() == log[i].lo)
  }

  ghost predicate ReaderOk<T>(g: Geometry, total: nat, stored: seq<T>, reader: Reader<T>)
    requires g.Valid()
  {
    && reader.at <= total <= |stored|
    && reader.r == Counter(g, reader.at)
    && (reader.pc.ReaderCopying? ==>
          && reader.at + reader.pc.n <= total && reader.pc.n <= g.slots
          && reader.pc.tx == GrantedAt(g, reader.at, reader.pc.n)
          && CopyOk(g, stored, reader.at, reader.pc))
    && Chain(reader.log, reader.at)
    && (forall i :: 0 <= i < |reader.log| ==> RangeOk(g, stored, reader.log[i]))
  }

  ghost predicate WriterOk<T>(g: Geometry, s: State<T>)
    requires g.Valid()
  {
    && |s.ring| == g.slots
    && s.w == Counter(g, |s.written|)
    && (s.writer.WriterCopying? ==>
          && |s.writer.data| <= g.slots && s.writer.done <= |s.writer.data|
          && s.writer.tx == GrantedAt(g, |s.written|, |s.writer.data|))
    && Holds(s.ring, Stored(s), |Stored(s)| - g.slots)
  }

  ghost predicate Inv<T>(g: Geometry, s: State<T>)
    requires g.Valid()
  {
    && WriterOk(g, s)
    && (forall i :: 0 <= i < |s.readers| ==> ReaderOk(g, |s.written|, Stored(s), s.readers[i]))
  }

  /** No counter wrap: fewer than 2^64 bytes have been written. */
  ghost predicate NoWrap(g: Geometry, total: nat) { total * g.quantum < TWO64 }

  lemma ReaderOkGrows<T>(g: Geometry, total: nat, total': nat, stored: seq<T>, stored': seq<T>, reader: Reader<T>)
    requires g.Valid() && ReaderOk(g, total, stored, reader)
    requires total <= total' <= |stored'| && stored <= stored'
    ensures ReaderOk(g, total', stored', reader)
  {
  }

  lemma WriterDecides(g: Geometry, total: nat, n: nat)
    requires g.Valid() && NoWrap(g, total)
    ensures BeginWrite(g, UnsynchronizedWrite, Counter(g, total), 0, Counter(g, total), n)
            == if n <= g.slots then Granted(GrantedAt(g, total, n)) else Refused
  {
    SizePositive(g);
    assert Counter(g, 0) == 0;
    BeginWriteExact(g, UnsynchronizedWrite, total, 0, n);
  }

  lemma WriterBeginKeepsOk<T>(g: Geometry, s: State<T>, data: seq<T>)
    requires g.Valid() && WriterOk(g, s) && Enabled(g, s, WriterBegin(data)) && NoWrap(g, |s.written|)
    ensures WriterOk(g, Apply(g, s, WriterBegin(data)))
    ensures Stored(Apply(g, s, WriterBegin(data))) == Stored(s)
  {
    WriterDecides(g, |s.written|, |data|);
  }

  lemma WriterCopyKeepsOk<T>(g: Geometry, s: State<T>)
    requires g.Valid() && WriterOk(g, s) && Enabled(g, s, WriterCopy)
    ensures WriterOk(g, Apply(g, s, WriterCopy))
    ensures Stored(Apply(g, s, WriterCopy)) == Stored(s) + [s.writer.data[s.writer.done]]
  {
    RingSlotIs(g, |s.written|, |s.writer.data|, s.writer.done);
    WriterStoresOne(g, s);
    HoldsLess(s.ring, Stored(s), |Stored(s)| - g.slots, |Stored(s)| + 1 - g.slots);
    StoreNext(s.ring, Stored(s), |Stored(s)| + 1 - g.slots, s.writer.data[s.writer.done]);
  }

  lemma WriterCommitKeepsOk<T>(g: Geometry, s: State<T>)
    requires g.Valid() && WriterOk(g, s) && Enabled(g, s, WriterCommit)
    ensures WriterOk(g, Apply(g, s, WriterCommit))
    ensures Stored(Apply(g, s, WriterCommit)) == Stored(s)
  {
    CounterAfter(g, |s.written|, |s.writer.data|);
    assert Stored(Apply(g, s, WriterCommit)) == Stored(s);
  }

  lemma WriterStepKeepsInv<T>(g: Geometry, s: State<T>, step: Step<T>)
    requires g.Valid() && Inv(g, s) && Enabled(g, s, step) && NoWrap(g, |s.written|)
    requires step.WriterBegin? || step.WriterCopy? || step.WriterCommit?
    ensures Inv(g, Apply(g, s, step))
  {
    var s' := Apply(g, s, step);
    match step {
      case WriterBegin(data) => WriterBeginKeepsOk(g, s, data);
      case WriterCopy => WriterCopyKeepsOk(g, s);
      case WriterCommit => WriterCommitKeepsOk(g, s);
    }
    forall i | 0 <= i < |s'.readers| ensures ReaderOk(g, |s'.written|, Stored(s'), s'.readers[i]) {
      ReaderOkGrows(g, |s.written|, |s'.written|, Stored(s), Stored(s'), s.readers[i]);
    }
  }

  lemma ChainExtended<T>(log: seq<Range<T>>, at: nat, range: Range<T>)
    requires Chain(log, at) && range.lo == at <= range.Hi()
    ensures Chain(log + [range], range.Hi())
  {
  }

  lemma ReaderDecides<T>(g: Geometry, total: nat, stored: seq<T>, reader: Reader<T>, n: nat)
    requires g.Valid() && ReaderOk(g, total, stored, reader) && NoWrap(g, total)
    ensures BeginRead(g, Counter(g, total), reader.r, n)
            == if total - reader.at > g.slots then Overwritten
               else if total - reader.at < n then Refused
               else Granted(GrantedAt(g, reader.at, n))
    ensures CommitRead(g, Counter(g, total), reader.r, n)
            == if total - reader.at > g.slots then Lost else Advanced(Counter(g, reader.at + n))
  {
    SizePositive(g);
    ExactBelow(g, reader.at, total);
    MulMonotone(total - reader.at, total, g.quantum);
    BeginReadExact(g, total, reader.at, n);
    CommitReadExact(g, total, reader.at, n);
  }

  lemma ResyncKeepsOk<T>(g: Geometry, total: nat, stored: seq<T>, reader: Reader<T>)
    requires g.Valid() && ReaderOk(g, total, stored, reader) && total - reader.at > g.slots
    ensures ReaderOk(g, total, stored, Resync(reader, Counter(g, total), total))
  {
    ChainExtended(reader.log, reader.at, Skipped(reader.at, total));
  }

  lemma BeginKeepsOk<T>(g: Geometry, total: nat, stored: seq<T>, reader: Reader<T>, n: nat)
    requires g.Valid() && ReaderOk(g, total, stored, reader) && NoWrap(g, total) && reader.pc.ReaderIdle?
    ensures ReaderOk(g, total, stored, Begin(g, reader, Counter(g, total), total, n))
  {
    ReaderDecides(g, total, stored, reader, n);
    if total - reader.at > g.slots { ResyncKeepsOk(g, total, stored, reader); }
  }

  lemma CopyKeepsOk<T>(g: Geometry, total: nat, stored: seq<T>, reader: Reader<T>, ring: seq<T>)
    requires g.Valid() && ReaderOk(g, total, stored, reader) && |ring| == g.slots
    requires reader.pc.ReaderCopying? && |reader.pc.out| < reader.pc.n
    requires Holds(ring, stored, |stored| - g.slots)
    ensures 0 <= RingSlot(g, reader.pc.tx, |reader.pc.out|) < |ring|
    ensures ReaderOk(g, total, stored, Copy(g, reader, ring, |stored|))
  {
    var i := reader.at + |reader.pc.out|;
    RingSlotIs(g, reader.at, reader.pc.n, |reader.pc.out|);
    var k := Latest(g, i, |stored|);
    assert ring[i % g.slots] == ring[k % g.slots] == stored[k];
  }

  lemma CommitKeepsOk<T>(g: Geometry, total: nat, stored: seq<T>, reader: Reader<T>)
    requires g.Valid() && ReaderOk(g, total, stored, reader) && NoWrap(g, total)
    requires reader.pc.ReaderCopying? && |reader.pc.out| == reader.pc.n
    ensures ReaderOk(g, total, stored, Commit(g, reader, Counter(g, total), total, |stored|))
  {
    ReaderDecides(g, total, stored, reader, reader.pc.n);
    if total - reader.at > g.slots {
      ResyncKeepsOk(g, total, stored, reader);
    } else {
      ChainExtended(reader.log, reader.at, Delivered(reader.at, reader.pc.out, |stored|));
    }
  }

  lemma StepKeepsInv<T>(g: Geometry, s: State<T>, step: Step<T>)
    requires g.Valid() && Inv(g, s) && Enabled(g, s, step) && NoWrap(g, |s.written|)
    ensures Inv(g, Apply(g, s, step))
  {
    match step
    case ReaderBegin(i, n) => BeginKeepsOk(g, |s.written|, Stored(s), s.readers[i], n);
    case ReaderCopy(i) => CopyKeepsOk(g, |s.written|, Stored(s), s.readers[i], s.ring);
    case ReaderCommit(i) => CommitKeepsOk(g, |s.written|, Stored(s), s.readers[i]);
    case _ => WriterStepKeepsInv(g, s, step);
  }

  lemma NoWrapBefore(g: Geometry, total: nat, total': nat)
    requires total <= total' && NoWrap(g, total')
    ensures NoWrap(g, total)
  {
    MulMonotone(total, total', g.quantum);
  }

  lemma {:induction false} ReachableInv<T>(g: Geometry, s: State<T>, schedule: seq<Step<T>>)
    requires g.Valid() && Initial(g, s) && Legal(g, s, schedule) && NoWrap(g, |After(g, s, schedule).written|)
    ensures Inv(g, After(g, s, schedule)) && |After(g, s, schedule).readers| == |s.readers|
  {
    if schedule == [] {
      assert 0 * g.quantum == 0;
    } else {
      var mid := After(g, s, Front(schedule));
      NoWrapBefore(g, |mid.written|, |Apply(g, mid, Last(schedule)).written|);
      ReachableInv(g, s, Front(schedule));
      StepKeepsInv(g, mid, Last(schedule));
    }
  }

  // ------------------------------------------------------------------ what readers get

  /** end is reached from an initial state by some schedule, with fewer than 2^64 bytes written. */
  ghost predicate Reachable<T(!new)>(g: Geometry, end: State<T>)
    requires g.Valid()
  {
    && NoWrap(g, |end.written|)
    && exists s, schedule :: Initial(g, s) && Legal(g, s, schedule) && After(g, s, schedule) == end
  }

  lemma ReachableHasInv<T(!new)>(g: Geometry, end: State<T>)
    requires g.Valid() && Reachable(g, end)
    ensures Inv(g, end)
  {
    var s, schedule :| Initial(g, s) && Legal(g, s, schedule) && After(g, s, schedule) == end;
    ReachableInv(g, s, schedule);
  }

  /** An open copy never runs out of the ring: its next message always has a slot. */
  lemma CopiesStayInRing<T(!new)>(g: Geometry, s: State<T>, i: nat)
    requires g.Valid() && Reachable(g, s) && i < |s.readers|
    ensures s.writer.WriterCopying? && s.writer.done < |s.writer.data| ==> Enabled(g, s, WriterCopy)
    ensures s.readers[i].pc.ReaderCopying? && |s.readers[i].pc.out| < s.readers[i].pc.n ==> Enabled(g, s, ReaderCopy(i))
  {
    ReachableHasInv(g, s);
    if s.writer.WriterCopying? && s.writer.done < |s.writer.data| {
      RingSlotIs(g, |s.written|, |s.writer.data|, s.writer.done);
    }
    if s.readers[i].pc.ReaderCopying? && |s.readers[i].pc.out| < s.readers[i].pc.n {
      CopyKeepsOk(g, |s.written|, Stored(s), s.readers[i], s.ring);
    }
  }

  /** One copy step of a write stores the next message of its call. */
  lemma WriterStoresOne<T>(g: Geometry, s: State<T>)
    requires g.Valid() && Enabled(g, s, WriterCopy)
    ensures Apply(g, s, WriterCopy).written == s.written
    ensures Stored(Apply(g, s, WriterCopy)) == Stored(s) + [s.writer.data[s.writer.done]]
  {
    var data, done := s.writer.data, s.writer.done;
    assert data[..done + 1] == data[..done] + [data[done]];
  }

  /** One copy step of a read takes one message into its buffer and moves nothing else of the reader. */
  lemma ReaderTakesOne<T>(g: Geometry, s: State<T>, i: nat)
    requires g.Valid() && Enabled(g, s, ReaderCopy(i))
    ensures |Apply(g, s, ReaderCopy(i)).readers| == |s.readers|
    ensures var before, after := s.readers[i], Apply(g, s, ReaderCopy(i)).readers[i];
      && (after.r, after.at, after.log) == (before.r, before.at, before.log)
      && after.pc.ReaderCopying? && after.pc.n == before.pc.n && after.pc.tx == before.pc.tx
      && |after.pc.out| == |before.pc.out| + 1 && before.pc.out <= after.pc.out
  {
  }

  /**
   * While a read is open, element j copied so far is the message of the newest stream index that had been stored in
   * its slot, which is its own index exactly if the writer was not a full ring ahead when it was copied.
   */
  lemma CopiedElementIdentity<T(!new)>(g: Geometry, s: State<T>, i: nat, j: nat)
    requires g.Valid() && Reachable(g, s) && i < |s.readers|
    requires s.readers[i].pc.ReaderCopying? && j < |s.readers[i].pc.out|
    ensures var reader := s.readers[i];
      && |reader.pc.frontiers| == |reader.pc.out|
      && reader.at + j < reader.pc.frontiers[j] <= |Stored(s)|
      && var k := Latest(g, reader.at + j, reader.pc.frontiers[j]);
         && reader.pc.out[j] == Stored(s)[k]
         && (k == reader.at + j <==> reader.pc.frontiers[j] <= reader.at + j + g.slots)
  {
    ReachableHasInv(g, s);
    assert ReaderOk(g, |s.written|, Stored(s), s.readers[i]);
  }

  /**
   * Every element of every successful read is the one written at its stream index, unless at the time of the commit
   * the writer had stored, committed or not, the element a full ring further on.
   */
  lemma DeliveredElementsValid<T(!new)>(g: Geometry, s: State<T>, i: nat, k: nat, j: nat)
    requires g.Valid() && Reachable(g, s) && i < |s.readers|
    requires k < |s.readers[i].log| && s.readers[i].log[k].Delivered? && j < |s.readers[i].log[k].out|
    ensures var range := s.readers[i].log[k];
      && range.lo + j < |Stored(s)|
      && (range.lo + j + g.slots >= range.frontier ==> range.out[j] == Stored(s)[range.lo + j])
  {
    LoggedRangeOk(g, s, i, k);
  }

  lemma LoggedRangeOk<T(!new)>(g: Geometry, s: State<T>, i: nat, k: nat)
    requires g.Valid() && Reachable(g, s) && i < |s.readers| && k < |s.readers[i].log|
    ensures RangeOk(g, Stored(s), s.readers[i].log[k])
  {
    ReachableHasInv(g, s);
    assert ReaderOk(g, |s.written|, Stored(s), s.readers[i]);
  }

  /**
   * What a read finds when it begins, in message counts: a reader that is more than a ring behind is moved up to the
   * write counter and charged with a skip; if enough is unread the read is open on those messages; else it has no
   * effect.
   */
  lemma ReaderBeginDecided<T(!new)>(g: Geometry, s: State<T>, i: nat, n: nat)
    requires g.Valid() && Reachable(g, s) && Enabled(g, s, ReaderBegin(i, n))
    ensures |Apply(g, s, ReaderBegin(i, n)).readers| == |s.readers|
    ensures var before, after := s.readers[i], Apply(g, s, ReaderBegin(i, n)).readers[i];
      var unread := |s.written| - before.at;
      if unread > g.slots then
        after == Reader(s.w, ReaderIdle, |s.written|, before.log + [Skipped(before.at, |s.written|)])
      else if n <= unread then
        && after == Reader(before.r, after.pc, before.at, before.log)
        && after.pc == ReaderCopying(n, GrantedAt(g, before.at, n), [], [])
      else after == before
  {
    ReachableHasInv(g, s);
    assert ReaderOk(g, |s.written|, Stored(s), s.readers[i]);
    ReaderDecides(g, |s.written|, Stored(s), s.readers[i], n);
  }

  /** A commit delivers everything the read has copied, unless the reader is more than a ring behind by now. */
  lemma ReaderCommitDecided<T(!new)>(g: Geometry, s: State<T>, i: nat)
    requires g.Valid() && Reachable(g, s) && Enabled(g, s, ReaderCommit(i))
    ensures |Apply(g, s, ReaderCommit(i)).readers| == |s.readers|
    ensures var before, after := s.readers[i], Apply(g, s, ReaderCommit(i)).readers[i];
      && after.pc == ReaderIdle
      && |before.pc.out| == before.pc.n && before.at + before.pc.n <= |s.written|
      && if |s.written| - before.at > g.slots then
           after.at == |s.written| && after.log == before.log + [Skipped(before.at, |s.written|)]
         else
           && after.at == before.at + before.pc.n
           && after.log == before.log + [Delivered(before.at, before.pc.out, |Stored(s)|)]
  {
    ReachableHasInv(g, s);
    assert ReaderOk(g, |s.written|, Stored(s), s.readers[i]);
    ReaderDecides(g, |s.written|, Stored(s), s.readers[i], s.readers[i].pc.n);
  }

  /** A read that commits while no write is open delivers exactly what was written at its indices. */
  lemma CommitBetweenWritesIsExact<T(!new)>(g: Geometry, s: State<T>, i: nat)
    requires g.Valid() && Reachable(g, s) && i < |s.readers|
    requires Enabled(g, s, ReaderCommit(i)) && s.writer.WriterIdle?
    ensures |Apply(g, s, ReaderCommit(i)).readers| == |s.readers|
    ensures var before, after := s.readers[i], Apply(g, s, ReaderCommit(i)).readers[i];
      if |s.written| <= before.at + g.slots then
        && before.at + before.pc.n <= |s.written|
        && after.at == before.at + before.pc.n
        && after.log == before.log + [Delivered(before.at, s.written[before.at..after.at], |s.written|)]
      else after.at == |s.written| && after.log == before.log + [Skipped(before.at, |s.written|)]
  {
    ReaderCommitDecided(g, s, i);
    ReachableHasInv(g, s);
    var before := s.readers[i];
    assert ReaderOk(g, |s.written|, Stored(s), before);
    if |s.written| <= before.at + g.slots {
      assert before.pc.out == s.written[before.at..before.at + before.pc.n];
    }
  }

  /** The writer is never held up by readers: a write is open on its data exactly if the data fit the ring at all. */
  lemma WriterBeginDecided<T(!new)>(g: Geometry, s: State<T>, data: seq<T>)
    requires g.Valid() && Reachable(g, s) && Enabled(g, s, WriterBegin(data))
    ensures Apply(g, s, WriterBegin(data)).writer
            == if |data| <= g.slots then WriterCopying(data, GrantedAt(g, |s.written|, |data|), 0) else WriterIdle
  {
    ReachableHasInv(g, s);
    WriterDecides(g, |s.written|, |data|);
  }

  // ------------------------------------------------------------------ the calls behind the steps

  /** The data of the write that is open after the schedule, or was the last one. */
  ghost function WriteCall<T>(past: seq<Step<T>>): seq<T> {
    if past == [] then [] else match Last(past) case WriterBegin(data) => data case _ => WriteCall(Front(past))
  }

  /** The count of the read that reader i has open after the schedule, or had last. */
  ghost function ReadCall<T>(past: seq<Step<T>>, i: nat): nat {
    if past == [] then 0
    else if Last(past).ReaderBegin? && Last(past).i == i then Last(past).n else ReadCall(Front(past), i)
  }

  /** The data of all write calls that reached their commit, in order. */
  ghost function AllWritten<T>(past: seq<Step<T>>): seq<T> {
    if past == [] then []
    else AllWritten(Front(past)) + if Last(past).WriterCommit? then WriteCall(Front(past)) else []
  }

  ghost predicate ServesCalls<T>(s: State<T>, past: seq<Step<T>>) {
    && s.written == AllWritten(past)
    && (s.writer.WriterCopying? ==> s.writer.data == WriteCall(past))
    && (forall i :: 0 <= i < |s.readers| && s.readers[i].pc.ReaderCopying? ==> s.readers[i].pc.n == ReadCall(past, i))
  }

  lemma StepServesCalls<T>(g: Geometry, s: State<T>, past: seq<Step<T>>, step: Step<T>)
    requires g.Valid() && Enabled(g, s, step) && ServesCalls(s, past)
    ensures ServesCalls(Apply(g, s, step), past + [step])
  {
    assert Front(past + [step]) == past && Last(past + [step]) == step;
  }

  /**
   * In every run the messages written are the data of the write calls that committed, in order and complete, an open
   * write is on the data of its call, and an open read is for as many messages as its call asked for.
   */
  lemma {:induction false} StreamIsTheCalls<T>(g: Geometry, s: State<T>, schedule: seq<Step<T>>)
    requires g.Valid() && Initial(g, s) && Legal(g, s, schedule)
    ensures ServesCalls(After(g, s, schedule), schedule)
  {
    if schedule != [] {
      StreamIsTheCalls(g, s, Front(schedule));
      StepServesCalls(g, After(g, s, Front(schedule)), Front(schedule), Last(schedule));
      assert Front(schedule) + [Last(schedule)] == schedule;
    }
  }

  /** The ranges a reader was given or skipped are disjoint and in stream order. */
  lemma {:induction false} ChainOrdered<T>(log: seq<Range<T>>, at: nat, a: nat, b: nat)
    requires Chain(log, at) && a < b < |log|
    ensures log[a].Hi() <= log[b].lo
    decreases b
  {
    if a < b - 1 { ChainOrdered(log, at, a, b - 1); }
  }

  /**
   * In every run every reader's history splits the stream up to its read position into consecutive ranges: successful
   * reads, pairwise disjoint and in order, and skips, each longer than the ring.
   */
  lemma ReaderHistoryOrdered<T(!new)>(g: Geometry, s: State<T>, i: nat, a: nat, b: nat)
    requires g.Valid() && Reachable(g, s) && i < |s.readers| && a < b < |s.readers[i].log|
    ensures var reader := s.readers[i];
      && reader.log[0].lo == 0 && Last(reader.log).Hi() == reader.at <= |s.written|
      && reader.log[b - 1].Hi() == reader.log[b].lo
      && reader.log[a].lo <= reader.log[a].Hi() <= reader.log[b].lo <= reader.log[b].Hi()
      && (reader.log[b].Skipped? ==> reader.log[b].Hi() - reader.log[b].lo > g.slots)
  {
    ReachableHasInv(g, s);
    var reader := s.readers[i];
    assert ReaderOk(g, |s.written|, Stored(s), reader);
    ChainOrdered(reader.log, reader.at, a, b);
    LoggedRangeOk(g, s, i, b);
  }

  // ------------------------------------------------------------------ readers do not disturb anybody

  /** The schedule with the steps of one reader left out. */
  ghost function Without<T>(schedule: seq<Step<T>>, i: nat): seq<Step<T>> {
    if schedule == [] then []
    else if Last(schedule).Of(i) then Without(Front(schedule), i)
    else Without(Front(schedule), i) + [Last(schedule)]
  }

  ghost predicate SameButReader<T>(s: State<T>, s': State<T>, i: nat) {
    && s'.ring == s.ring && s'.w == s.w && s'.writer == s.writer && s'.written == s.written
    && |s'.readers| == |s.readers|
    && forall j :: 0 <= j < |s.readers| && j != i ==> s'.readers[j] == s.readers[j]
  }

  /** Without its steps, every run is still a run, and the writer and the other readers see exactly the same. */
  lemma {:induction false} ReaderIsInvisible<T>(g: Geometry, s: State<T>, schedule: seq<Step<T>>, i: nat)
    requires g.Valid() && Legal(g, s, schedule)
    ensures Legal(g, s, Without(schedule, i))
    ensures SameButReader(After(g, s, schedule), After(g, s, Without(schedule, i)), i)
  {
    if schedule != [] {
      ReaderIsInvisible(g, s, Front(schedule), i);
      var rest, step := Without(Front(schedule), i), Last(schedule);
      if !step.Of(i) {
        SameEffect(g, After(g, s, Front(schedule)), After(g, s, rest), step, i);
        assert Front(rest + [step]) == rest;
      }
    }
  }

  /** A reader is moved by nobody but itself: over a schedule without its steps it stays as it was. */
  lemma {:induction false} ReaderMovesItself<T>(g: Geometry, s: State<T>, schedule: seq<Step<T>>, i: nat)
    requires g.Valid() && Legal(g, s, schedule) && i < |s.readers|
    requires forall k :: 0 <= k < |schedule| ==> !schedule[k].Of(i)
    ensures |After(g, s, schedule).readers| == |s.readers| && After(g, s, schedule).readers[i] == s.readers[i]
  {
    if schedule != [] {
      ReaderMovesItself(g, s, Front(schedule), i);
      assert !Last(schedule).Of(i);
    }
  }

  lemma SameEffect<T>(g: Geometry, s: State<T>, s': State<T>, step: Step<T>, i: nat)
    requires g.Valid() && SameButReader(s, s', i) && Enabled(g, s, step) && !step.Of(i)
    ensures Enabled(g, s', step) && SameButReader(Apply(g, s, step), Apply(g, s', step), i)
  {
  }

  // ------------------------------------------------------------------ an open write can be seen

  lemma Extended<T>(g: Geometry, s: State<T>, schedule: seq<Step<T>>, step: Step<T>)
    requires g.Valid() && Legal(g, s, schedule) && Enabled(g, After(g, s, schedule), step)
    ensures Legal(g, s, schedule + [step]) && After(g, s, schedule + [step]) == Apply(g, After(g, s, schedule), step)
  {
    assert Front(schedule + [step]) == schedule;
  }

  /**
   * The bound of DeliveredElementsValid cannot be dropped: with one slot, a read that overlaps the next write commits
   * successfully and delivers the message of that write instead of its own.
   */
  lemma OverlappedReadDelivers(first: int, next: int) returns (g: Geometry, s: State<int>, schedule: seq<Step<int>>)
    requires first != next
    ensures g.Valid() && Initial(g, s) && Legal(g, s, schedule) && |s.readers| == 1
    ensures var end := After(g, s, schedule);
      && end.written == [first] && Stored(end) == [first, next]
      && |end.readers| == 1 && end.readers[0].log == [Delivered(0, [next], 2)]
  {
    g := Geometry(1, 1);
    s := State([0], 0, WriterIdle, [Reader(0, ReaderIdle, 0, [])], []);
    schedule := AfterFirstWrite(g, s, first);
    schedule := AfterOverlap(g, s, schedule, first, next);
    var s6 := After(g, s, schedule);
    CopyOverlapped(g, s6, first, next);
    Extended(g, s, schedule, ReaderCopy(0));
    schedule := schedule + [ReaderCopy(0)];
    CommitOverlapped(g, After(g, s, schedule), first, next);
    Extended(g, s, schedule, ReaderCommit(0));
    schedule := schedule + [ReaderCommit(0)];
  }

  /** The transaction of the only slot there is. */
  const ONE_SLOT := MemTransaction(MemRegion(At(0), 1), NO_REGION)

  lemma CopyOverlapped(g: Geometry, s: State<int>, x: int, y: int)
    requires g == Geometry(1, 1)
    requires s == State([y], 1, WriterCopying([y], ONE_SLOT, 1),
                        [Reader(0, ReaderCopying(1, ONE_SLOT, [], []), 0, [])], [x])
    ensures Enabled(g, s, ReaderCopy(0))
    ensures Apply(g, s, ReaderCopy(0))
            == s.(readers := [Reader(0, ReaderCopying(1, ONE_SLOT, [y], [2]), 0, [])])
  {
    OnlySlot(g);
    StoredTwo(s, x, y);
    var reader := Reader(0, ReaderCopying(1, ONE_SLOT, [y], [2]), 0, []);
    var out: seq<int>, frontiers: seq<nat> := [], [];
    assert out + [y] == [y] && frontiers + [2] == [2];
    assert Copy(g, s.readers[0], s.ring, 2) == reader;
    assert s.readers[0 := reader] == [reader];
  }

  lemma OnlySlot(g: Geometry)
    requires g == Geometry(1, 1)
    ensures RingSlot(g, ONE_SLOT, 0) == 0
  {
    assert ONE_SLOT.GetSlot(1, 0) == At(0);
  }

  lemma StoredTwo(s: State<int>, x: int, y: int)
    requires s.writer == WriterCopying([y], ONE_SLOT, 1) && s.written == [x]
    ensures Stored(s) == [x, y]
  {
    assert [y][..1] == [y];
  }

  lemma CommitOverlapped(g: Geometry, s: State<int>, x: int, y: int)
    requires g == Geometry(1, 1)
    requires s == State([y], 1, WriterCopying([y], ONE_SLOT, 1),
                        [Reader(0, ReaderCopying(1, ONE_SLOT, [y], [2]), 0, [])], [x])
    ensures Enabled(g, s, ReaderCommit(0))
    ensures Apply(g, s, ReaderCommit(0)) == s.(readers := [Reader(1, ReaderIdle, 1, [Delivered(0, [y], 2)])])
    ensures Stored(s) == [x, y]
  {
    StoredTwo(s, x, y);
    assert CommitRead(g, 1, 0, 1) == Advanced(1);
    var reader := Reader(1, ReaderIdle, 1, [Delivered(0, [y], 2)]);
    assert Commit(g, s.readers[0], 1, 1, 2) == reader && s.readers[0 := reader] == [reader];
  }

  lemma OverlappingReadBegins(g: Geometry, s: State<int>, x: int)
    requires g == Geometry(1, 1) && s == State([x], 1, WriterIdle, [Reader(0, ReaderIdle, 0, [])], [x])
    ensures Enabled(g, s, ReaderBegin(0, 1))
    ensures Apply(g, s, ReaderBegin(0, 1)) == s.(readers := [Reader(0, ReaderCopying(1, ONE_SLOT, [], []), 0, [])])
  {
    assert BeginRead(g, 1, 0, 1) == Granted(ONE_SLOT);
    var reader := Reader(0, ReaderCopying(1, ONE_SLOT, [], []), 0, []);
    assert Begin(g, s.readers[0], 1, 1, 1) == reader && s.readers[0 := reader] == [reader];
  }

  lemma OverlappingWriteStores(g: Geometry, s: State<int>, x: int, y: int)
    requires g == Geometry(1, 1) && s.ring == [x] && s.w == 1 && s.writer == WriterIdle
    ensures var begun := s.(writer := WriterCopying([y], ONE_SLOT, 0));
      && Enabled(g, s, WriterBegin([y])) && Apply(g, s, WriterBegin([y])) == begun
      && Enabled(g, begun, WriterCopy)
      && Apply(g, begun, WriterCopy) == s.(ring := [y], writer := WriterCopying([y], ONE_SLOT, 1))
  {
    assert BeginWrite(g, UnsynchronizedWrite, 1, 0, 1, 1) == Granted(ONE_SLOT);
    OnlySlot(g);
    assert s.ring[0 := y] == [y];
  }

  lemma AfterOverlap(g: Geometry, s: State<int>, prefix: seq<Step<int>>, x: int, y: int)
    returns (schedule: seq<Step<int>>)
    requires g == Geometry(1, 1) && Legal(g, s, prefix)
    requires After(g, s, prefix) == State([x], 1, WriterIdle, [Reader(0, ReaderIdle, 0, [])], [x])
    ensures Legal(g, s, schedule)
    ensures After(g, s, schedule)
      == State([y], 1, WriterCopying([y], ONE_SLOT, 1), [Reader(0, ReaderCopying(1, ONE_SLOT, [], []), 0, [])], [x])
  {
    OverlappingReadBegins(g, After(g, s, prefix), x);
    Extended(g, s, prefix, ReaderBegin(0, 1));
    schedule := prefix + [ReaderBegin(0, 1)];
    OverlappingWriteStores(g, After(g, s, schedule), x, y);
    Extended(g, s, schedule, WriterBegin([y]));
    schedule := schedule + [WriterBegin([y])];
    Extended(g, s, schedule, WriterCopy);
    schedule := schedule + [WriterCopy];
  }

  lemma AfterFirstWrite(g: Geometry, s: State<int>, x: int) returns (schedule: seq<Step<int>>)
    requires g == Geometry(1, 1) && s == State([0], 0, WriterIdle, [Reader(0, ReaderIdle, 0, [])], [])
    ensures Legal(g, s, schedule)
    ensures After(g, s, schedule) == State([x], 1, WriterIdle, s.readers, [x])
  {
    schedule := [];
    Extended(g, s, schedule, WriterBegin([x]));
    schedule := schedule + [WriterBegin([x])];
    Extended(g, s, schedule, WriterCopy);
    schedule := schedule + [WriterCopy];
    Extended(g, s, schedule, WriterCommit);
    schedule := schedule + [WriterCommit];
  }
}
