/**
 * One writer calling write() and one reader calling read() on a synchronized queue, interleaved at every load of the
 * other side's counter, every copied message and every counter store.  Counters are the wrapping 64-bit words of the
 * implementation.  A load of the other side's counter may return any value it has held since the last one seen.
 */
module SynchronizedProtocol {
  import opened Arithmetic
  import opened Common
  import opened MemTransactions
  import opened QueueCore
  import opened RingContents

  datatype Writer<T> =
    | WriterIdle
    | WriterLoaded(data: seq<T>, seen: nat)               // availableToWrite has loaded the read counter
    | WriterCopying(data: seq<T>, tx: MemTransaction, done: nat)

  datatype Reader<T> =
    | ReaderIdle
    | ReaderLoaded(n: nat, seen: nat)                     // beginRead has loaded the write counter
    | ReaderCopying(n: nat, tx: MemTransaction, out: seq<T>)
    | ReaderClosing(n: nat, out: seq<T>, seen: nat)       // commitRead has loaded the write counter again

  /**
   * wHist and rHist are all values the two shared counters have held, the last being the current one; wView and rView
   * are the positions of the newest value the other side has loaded.  The remaining fields are history: wMarks and
   * rMarks are the messages counted by each value without wrapping, written and delivered the messages of all
   * successful writes and reads.
   */
  datatype State<T> = State(
    ring: seq<T>,
    wHist: seq<UInt64>, rHist: seq<UInt64>, wView: nat, rView: nat,
    writer: Writer<T>, reader: Reader<T>,
    wMarks: seq<nat>, rMarks: seq<nat>, written: seq<T>, delivered: seq<T>)

  datatype Step<T> =
    | WriterLoad(data: seq<T>, seen: nat)
    | WriterBegin
    | WriterCopy
    | WriterCommit
    | ReaderLoad(n: nat, seen: nat)
    | ReaderBegin
    | ReaderCopy
    | ReaderReload(seen: nat)
    | ReaderCommit

  predicate Initial<T(==)>(g: Geometry, s: State<T>) {
    && |s.ring| == g.slots
    && s.wHist == [0] && s.rHist == [0] && s.wView == 0 && s.rView == 0
    && s.writer == WriterIdle && s.reader == ReaderIdle
    && s.wMarks == [0] && s.rMarks == [0] && s.written == [] && s.delivered == []
  }

  predicate Enabled<T>(g: Geometry, s: State<T>, step: Step<T>)
    requires g.quantum > 0
  {
    && s.wHist != [] && s.rHist != [] && |s.wMarks| == |s.wHist| && |s.rMarks| == |s.rHist|
    && match step
       case WriterLoad(_, seen) => s.writer.WriterIdle? && s.rView <= seen < |s.rHist|
       case WriterBegin => s.writer.WriterLoaded? && s.writer.seen < |s.rHist|
       case WriterCopy =>
         s.writer.WriterCopying? && s.writer.done < |s.writer.data|
         && 0 <= RingSlot(g, s.writer.tx, s.writer.done) < |s.ring|
       case WriterCommit => s.writer.WriterCopying? && s.writer.done == |s.writer.data|
       case ReaderLoad(n, seen) => s.reader.ReaderIdle? && s.wView <= seen < |s.wHist| && n * g.quantum < TWO64
       case ReaderBegin => s.reader.ReaderLoaded? && s.reader.seen < |s.wHist|
       case ReaderCopy =>
         s.reader.ReaderCopying? && |s.reader.out| < s.reader.n
         && 0 <= RingSlot(g, s.reader.tx, |s.reader.out|) < |s.ring|
       case ReaderReload(seen) =>
         s.reader.ReaderCopying? && |s.reader.out| == s.reader.n && s.wView <= seen < |s.wHist|
       case ReaderCommit => s.reader.ReaderClosing? && s.reader.seen < |s.wHist|
  }

  function Apply<T>(g: Geometry, s: State<T>, step: Step<T>): State<T>
    requires g.Valid() && Enabled(g, s, step)
  {
    var w, r := Last(s.wHist), Last(s.rHist);
    match step
    case WriterLoad(data, seen) => s.(writer := WriterLoaded(data, seen), rView := seen)
    case WriterBegin =>
      var data := s.writer.data;
      s.(writer := match BeginWrite(g, SynchronizedReadWrite, w, s.rHist[s.writer.seen], w, |data|)
         case Granted(tx) => WriterCopying(data, tx, 0)
         case _ => WriterIdle)
    case WriterCopy =>
      var done := s.writer.done;
      s.(ring := s.ring[RingSlot(g, s.writer.tx, done) := s.writer.data[done]],
         writer := WriterCopying(s.writer.data, s.writer.tx, done + 1))
    case WriterCommit =>
      s.(writer := WriterIdle, wHist := s.wHist + [CommitWrite(g, w, |s.writer.data|)],
         wMarks := s.wMarks + [Last(s.wMarks) + |s.writer.data|], written := s.written + s.writer.data)
    case ReaderLoad(n, seen) => s.(reader := ReaderLoaded(n, seen), wView := seen)
    case ReaderBegin =>
      (match BeginRead(g, s.wHist[s.reader.seen], r, s.reader.n)
       case Granted(tx) => s.(reader := ReaderCopying(s.reader.n, tx, []))
       case Overwritten => ReaderResync(s, s.reader.seen)
       case _ => s.(reader := ReaderIdle))
    case ReaderCopy =>
      var tx, out := s.reader.tx, s.reader.out;
      s.(reader := ReaderCopying(s.reader.n, tx, out + [s.ring[RingSlot(g, tx, |out|)]]))
    case ReaderReload(seen) => s.(reader := ReaderClosing(s.reader.n, s.reader.out, seen), wView := seen)
    case ReaderCommit =>
      (match CommitRead(g, s.wHist[s.reader.seen], r, s.reader.n)
       case Lost => ReaderResync(s, s.reader.seen)
       case Advanced(r') =>
         s.(reader := ReaderIdle, rHist := s.rHist + [r'], rMarks := s.rMarks + [Last(s.rMarks) + s.reader.n],
            delivered := s.delivered + s.reader.out))
  }

  /** The read counter is moved up to the loaded write counter; nothing is delivered. */
  function ReaderResync<T>(s: State<T>, seen: nat): State<T>
    requires seen < |s.wHist| == |s.wMarks|
  {
    s.(reader := ReaderIdle, rHist := s.rHist + [s.wHist[seen]], rMarks := s.rMarks + [s.wMarks[seen]])
  }

  /** A finite run, with the offsets of every counter value exact; for a ring size that divides 2^64 they always are. */
  ghost predicate IsRun<T>(g: Geometry, states: seq<State<T>>, steps: seq<Step<T>>)
    requires g.Valid()
  {
    SizePositive(g);
    && |states| == |steps| + 1
    && Initial(g, states[0])
    && (forall i :: 0 <= i < |steps| ==>
          Enabled(g, states[i], steps[i]) && states[i + 1] == Apply(g, states[i], steps[i]))
    && (forall i :: 0 <= i < |states| ==> Exact(g, |states[i].written|))
  }

  // ------------------------------------------------------------------ the invariant

  /** A counter's values are the wrapped byte counts of its marks, which only grow. */
  ghost predicate CounterOk(g: Geometry, hist: seq<UInt64>, marks: seq<nat>, total: nat, view: nat) {
    && hist != [] && |marks| == |hist| && view < |hist|
    && (forall i :: 0 <= i < |hist| ==> hist[i] == Counter(g, marks[i]))
    && (forall i, j :: 0 <= i <= j < |marks| ==> marks[i] <= marks[j])
    && Last(marks) == total
  }

  /** Everything stored so far: the committed messages and those of the open write. */
  ghost function Stored<T>(s: State<T>): seq<T> {
    if s.writer.WriterCopying? && s.writer.done <= |s.writer.data|
    then s.written + s.writer.data[..s.writer.done] else s.written
  }

  ghost predicate WriterOk<T>(g: Geometry, s: State<T>)
    requires g.slots > 0 && g.quantum > 0
  {
    match s.writer
    case WriterIdle => true
    case WriterLoaded(data, seen) => seen == s.rView
    case WriterCopying(data, tx, done) =>
      && |s.written| + |data| <= |s.delivered| + g.slots
      && |s.written| + |data| <= (if s.rView < |s.rMarks| then s.rMarks[s.rView] else 0) + g.slots
      && tx == GrantedAt(g, |s.written|, |data|)
      && done <= |data|
  }

  ghost predicate ReaderOk<T>(g: Geometry, s: State<T>)
    requires g.slots > 0 && g.quantum > 0
  {
    match s.reader
    case ReaderIdle => true
    case ReaderLoaded(n, seen) => seen == s.wView
    case ReaderCopying(n, tx, out) =>
      && |out| <= n && |s.delivered| + n <= |s.written|
      && |s.delivered| + n <= (if s.wView < |s.wMarks| then s.wMarks[s.wView] else 0)
      && tx == GrantedAt(g, |s.delivered|, n)
      && out == s.written[|s.delivered|..|s.delivered| + |out|]
    case ReaderClosing(n, out, seen) =>
      && seen == s.wView && |out| == n && |s.delivered| + n <= |s.written|
      && |s.delivered| + n <= (if s.wView < |s.wMarks| then s.wMarks[s.wView] else 0)
      && out == s.written[|s.delivered|..|s.delivered| + n]
  }

  ghost predicate Inv<T>(g: Geometry, s: State<T>)
    requires g.Valid()
  {
    && |s.ring| == g.slots
    && CounterOk(g, s.wHist, s.wMarks, |s.written|, s.wView)
    && CounterOk(g, s.rHist, s.rMarks, |s.delivered|, s.rView)
    && |s.delivered| <= |s.written| <= |s.delivered| + g.slots
    && s.delivered == s.written[..|s.delivered|]
    && |s.written| <= s.rMarks[s.rView] + g.slots
    && |s.delivered| <= s.wMarks[s.wView]
    && Holds(s.ring, Stored(s), |s.delivered|)
    && WriterOk(g, s)
    && ReaderOk(g, s)
  }

  lemma InitialInv<T>(g: Geometry, s: State<T>)
    requires g.Valid() && Initial(g, s)
    ensures Inv(g, s)
  {
    QuotientUnique(0, TWO64, 0, 0);
    assert 0 * g.quantum == 0;
  }

  lemma WriterBeginDecides<T>(g: Geometry, s: State<T>)
    requires g.Valid() && Inv(g, s) && s.writer.WriterLoaded? && g.Size() > 0 && Exact(g, |s.written|)
    ensures BeginWrite(g, SynchronizedReadWrite, Last(s.wHist), s.rHist[s.rView], Last(s.wHist), |s.writer.data|)
            == if |s.written| + |s.writer.data| <= s.rMarks[s.rView] + g.slots
               then Granted(GrantedAt(g, |s.written|, |s.writer.data|)) else Refused
  {
    BeginWriteExact(g, SynchronizedReadWrite, |s.written|, s.rMarks[s.rView], |s.writer.data|);
  }

  lemma ReaderBeginDecides<T>(g: Geometry, s: State<T>)
    requires g.Valid() && Inv(g, s) && s.reader.ReaderLoaded? && g.Size() > 0 && Exact(g, |s.written|)
    ensures BeginRead(g, s.wHist[s.wView], Last(s.rHist), s.reader.n)
            == if |s.delivered| + s.reader.n <= s.wMarks[s.wView]
               then Granted(GrantedAt(g, |s.delivered|, s.reader.n)) else Refused
  {
    var w, r := s.wMarks[s.wView], |s.delivered|;
    assert w <= Last(s.wMarks);
    MulMonotone(w - r, g.slots, g.quantum);
    ExactBelow(g, w, |s.written|);
    ExactBelow(g, r, |s.written|);
    BeginReadExact(g, w, r, s.reader.n);
  }

  /** Storing one more value keeps a counter's history well formed. */
  lemma CounterStored(g: Geometry, hist: seq<UInt64>, marks: seq<nat>, total: nat, view: nat, value: UInt64, n: nat)
    requires CounterOk(g, hist, marks, total, view) && value == Counter(g, total + n)
    ensures CounterOk(g, hist + [value], marks + [total + n], total + n, view)
  {
    assert forall i :: 0 <= i < |marks| ==> marks[i] <= Last(marks);
  }

  lemma WriterLoadKeepsInv<T>(g: Geometry, s: State<T>, step: Step<T>)
    requires g.Valid() && Inv(g, s) && Enabled(g, s, step) && step.WriterLoad?
    ensures Inv(g, Apply(g, s, step))
  {
    assert s.rMarks[s.rView] <= s.rMarks[step.seen];
  }

  lemma WriterBeginKeepsInv<T>(g: Geometry, s: State<T>)
    requires g.Valid() && Inv(g, s) && Enabled(g, s, WriterBegin) && g.Size() > 0 && Exact(g, |s.written|)
    ensures Inv(g, Apply(g, s, WriterBegin))
  {
    WriterBeginDecides(g, s);
    assert s.rMarks[s.rView] <= Last(s.rMarks);
    assert Stored(Apply(g, s, WriterBegin)) == Stored(s);
  }

  /** An open read does not notice that more has been written. */
  lemma ReaderOkGrown<T>(g: Geometry, s: State<T>, s': State<T>)
    requires g.slots > 0 && g.quantum > 0 && ReaderOk(g, s)
    requires s'.reader == s.reader && s'.delivered == s.delivered && s'.wView == s.wView < |s.wMarks|
    requires s.written <= s'.written && s.wMarks <= s'.wMarks
    ensures ReaderOk(g, s')
  {
    assert s'.wMarks[s.wView] == s.wMarks[s.wView];
    forall lo, hi | 0 <= lo <= hi <= |s.written| ensures s'.written[lo..hi] == s.written[lo..hi] {
    }
  }

  lemma WriterCommitKeepsInv<T>(g: Geometry, s: State<T>)
    requires g.Valid() && Inv(g, s) && Enabled(g, s, WriterCommit)
    ensures Inv(g, Apply(g, s, WriterCommit))
  {
    var s', n := Apply(g, s, WriterCommit), |s.writer.data|;
    CounterAfter(g, |s.written|, n);
    CounterStored(g, s.wHist, s.wMarks, |s.written|, s.wView, Last(s'.wHist), n);
    assert Stored(s') == Stored(s);
    assert s'.written[..|s.delivered|] == s.written[..|s.delivered|];
    ReaderOkGrown(g, s, s');
  }

  lemma WriterCopyKeepsInv<T>(g: Geometry, s: State<T>)
    requires g.Valid() && Inv(g, s) && Enabled(g, s, WriterCopy)
    ensures Inv(g, Apply(g, s, WriterCopy))
  {
    var s', done := Apply(g, s, WriterCopy), s.writer.done;
    RingSlotIs(g, |s.written|, |s.writer.data|, done);
    StoreNext(s.ring, Stored(s), |s.delivered|, s.writer.data[done]);
    assert Stored(s') == Stored(s) + [s.writer.data[done]];
  }

  lemma ReaderLoadKeepsInv<T>(g: Geometry, s: State<T>, step: Step<T>)
    requires g.Valid() && Inv(g, s) && Enabled(g, s, step) && (step.ReaderLoad? || step.ReaderReload?)
    ensures Inv(g, Apply(g, s, step))
  {
    assert s.wMarks[s.wView] <= s.wMarks[step.seen];
  }

  lemma ReaderBeginKeepsInv<T>(g: Geometry, s: State<T>)
    requires g.Valid() && Inv(g, s) && Enabled(g, s, ReaderBegin) && g.Size() > 0 && Exact(g, |s.written|)
    ensures Inv(g, Apply(g, s, ReaderBegin))
  {
    ReaderBeginDecides(g, s);
    assert s.wMarks[s.wView] <= Last(s.wMarks);
  }

  lemma ReaderCopyKeepsInv<T>(g: Geometry, s: State<T>)
    requires g.Valid() && Inv(g, s) && Enabled(g, s, ReaderCopy)
    ensures Inv(g, Apply(g, s, ReaderCopy))
  {
    NextCopied(g, s);
    OutExtended(s.written, |s.delivered|, s.reader.out);
  }

  /** The slot that the open read copies next holds the next committed message. */
  lemma NextCopied<T>(g: Geometry, s: State<T>)
    requires g.Valid() && Inv(g, s) && Enabled(g, s, ReaderCopy)
    ensures |s.delivered| + |s.reader.out| < |s.written|
    ensures s.ring[RingSlot(g, s.reader.tx, |s.reader.out|)] == s.written[|s.delivered| + |s.reader.out|]
  {
    var i := |s.delivered| + |s.reader.out|;
    RingSlotIs(g, |s.delivered|, s.reader.n, |s.reader.out|);
    assert s.ring[i % g.slots] == Stored(s)[i] == s.written[i];
  }

  lemma OutExtended<T>(written: seq<T>, r: nat, out: seq<T>)
    requires r + |out| < |written| && out == written[r..r + |out|]
    ensures out + [written[r + |out|]] == written[r..r + |out| + 1]
  {
  }

  lemma ReaderCommitKeepsInv<T>(g: Geometry, s: State<T>)
    requires g.Valid() && Inv(g, s) && Enabled(g, s, ReaderCommit)
    ensures Inv(g, Apply(g, s, ReaderCommit))
    ensures Apply(g, s, ReaderCommit).delivered == s.delivered + s.reader.out
  {
    ReaderCommitSucceeds(g, s);
    var s', n := Apply(g, s, ReaderCommit), s.reader.n;
    CounterStored(g, s.rHist, s.rMarks, |s.delivered|, s.rView, Last(s'.rHist), n);
    assert s'.delivered == s.written[..|s.delivered| + n];
    assert s'.rMarks[s.rView] == s.rMarks[s.rView];
  }

  lemma ReaderCommitSucceeds<T>(g: Geometry, s: State<T>)
    requires g.Valid() && Inv(g, s) && s.reader.ReaderClosing?
    ensures CommitRead(g, s.wHist[s.wView], Last(s.rHist), s.reader.n)
            == Advanced(Counter(g, |s.delivered| + s.reader.n))
  {
    var w, r := s.wMarks[s.wView], |s.delivered|;
    assert w <= Last(s.wMarks);
    MulMonotone(w - r, g.slots, g.quantum);
    CommitReadExact(g, w, r, s.reader.n);
  }

  lemma StepKeepsInv<T>(g: Geometry, s: State<T>, step: Step<T>)
    requires g.Valid() && Inv(g, s) && Enabled(g, s, step) && g.Size() > 0 && Exact(g, |s.written|)
    ensures Inv(g, Apply(g, s, step))
  {
    match step
    case WriterLoad(_, _) => WriterLoadKeepsInv(g, s, step);
    case WriterBegin => WriterBeginKeepsInv(g, s);
    case WriterCopy => WriterCopyKeepsInv(g, s);
    case WriterCommit => WriterCommitKeepsInv(g, s);
    case ReaderBegin => ReaderBeginKeepsInv(g, s);
    case ReaderCopy => ReaderCopyKeepsInv(g, s);
    case ReaderCommit => ReaderCommitKeepsInv(g, s);
    case _ => ReaderLoadKeepsInv(g, s, step);
  }

  lemma {:induction false} RunInv<T>(g: Geometry, states: seq<State<T>>, steps: seq<Step<T>>, k: nat)
    requires g.Valid() && IsRun(g, states, steps) && k <= |steps|
    ensures Inv(g, states[k])
  {
    SizePositive(g);
    if k == 0 {
      InitialInv(g, states[0]);
    } else {
      RunInv(g, states, steps, k - 1);
      StepKeepsInv(g, states[k - 1], steps[k - 1]);
    }
  }

  // ------------------------------------------------------------------ the calls behind the steps

  /** The arguments of the write that is open after these steps, or was the last one. */
  ghost function WriteCall<T>(past: seq<Step<T>>): seq<T> {
    if past == [] then [] else match Last(past) case WriterLoad(data, _) => data case _ => WriteCall(Front(past))
  }

  ghost function ReadCall<T>(past: seq<Step<T>>): nat {
    if past == [] then 0 else match Last(past) case ReaderLoad(n, _) => n case _ => ReadCall(Front(past))
  }

  /** The newest counter values that the two sides have loaded. */
  ghost function LoadedByWriter<T>(past: seq<Step<T>>): nat {
    if past == [] then 0 else match Last(past) case WriterLoad(_, seen) => seen case _ => LoadedByWriter(Front(past))
  }

  ghost function LoadedByReader<T>(past: seq<Step<T>>): nat {
    if past == [] then 0 else
      match Last(past)
      case ReaderLoad(_, seen) => seen
      case ReaderReload(seen) => seen
      case _ => LoadedByReader(Front(past))
  }

  /** The data of all write calls that reached their commit, in order. */
  ghost function AllWritten<T>(past: seq<Step<T>>): seq<T> {
    if past == [] then []
    else AllWritten(Front(past)) + if Last(past).WriterCommit? then WriteCall(Front(past)) else []
  }

  /** The sum of the counts of all read calls that reached their commit. */
  ghost function AllRead<T>(past: seq<Step<T>>): nat {
    if past == [] then 0
    else AllRead(Front(past)) + if Last(past).ReaderCommit? then ReadCall(Front(past)) else 0
  }

  /** The writer's side of the state is what its calls so far ask for. */
  ghost predicate WriterServes<T>(s: State<T>, past: seq<Step<T>>) {
    && s.written == AllWritten(past) && s.rView == LoadedByWriter(past)
    && (!s.writer.WriterIdle? ==> s.writer.data == WriteCall(past))
  }

  ghost predicate ReaderServes<T>(s: State<T>, past: seq<Step<T>>) {
    && |s.delivered| == AllRead(past) && s.wView == LoadedByReader(past)
    && (!s.reader.ReaderIdle? ==> s.reader.n == ReadCall(past))
  }

  lemma StepWriterServes<T>(g: Geometry, s: State<T>, past: seq<Step<T>>, step: Step<T>)
    requires g.Valid() && Enabled(g, s, step) && WriterServes(s, past)
    ensures WriterServes(Apply(g, s, step), past + [step])
  {
    if !step.WriterCommit? && !step.ReaderCommit? { NotACommit(g, s, step); }
    WriterServesNext(s, Apply(g, s, step), past, step);
  }

  lemma WriterServesNext<T>(s: State<T>, s': State<T>, past: seq<Step<T>>, step: Step<T>)
    requires WriterServes(s, past)
    requires s'.written == if step.WriterCommit? && !s.writer.WriterIdle? then s.written + s.writer.data else s.written
    requires step.WriterCommit? ==> !s.writer.WriterIdle?
    requires s'.rView == if step.WriterLoad? then step.seen else s.rView
    requires !s'.writer.WriterIdle? ==>
      s'.writer.data == if step.WriterLoad? then step.data else if s.writer.WriterIdle? then [] else s.writer.data
    requires !s'.writer.WriterIdle? && s.writer.WriterIdle? ==> step.WriterLoad?
    ensures WriterServes(s', past + [step])
  {
    assert Front(past + [step]) == past && Last(past + [step]) == step;
  }

  lemma StepReaderServes<T>(g: Geometry, s: State<T>, past: seq<Step<T>>, step: Step<T>)
    requires g.Valid() && Inv(g, s) && Enabled(g, s, step) && ReaderServes(s, past)
    ensures ReaderServes(Apply(g, s, step), past + [step])
  {
    assert Front(past + [step]) == past && Last(past + [step]) == step;
    if step.ReaderCommit? { ReaderCommitSucceeds(g, s); }
  }

  lemma {:induction false} RunServesCalls<T>(g: Geometry, states: seq<State<T>>, steps: seq<Step<T>>, k: nat)
    requires g.Valid() && IsRun(g, states, steps) && k <= |steps|
    ensures WriterServes(states[k], steps[..k]) && ReaderServes(states[k], steps[..k])
  {
    if k > 0 {
      RunServesCalls(g, states, steps, k - 1);
      RunInv(g, states, steps, k - 1);
      NextServesCalls(g, states, steps, k - 1);
    }
  }

  lemma NextServesCalls<T>(g: Geometry, states: seq<State<T>>, steps: seq<Step<T>>, k: nat)
    requires g.Valid() && IsRun(g, states, steps) && k < |steps| && Inv(g, states[k])
    requires WriterServes(states[k], steps[..k]) && ReaderServes(states[k], steps[..k])
    ensures WriterServes(states[k + 1], steps[..k + 1]) && ReaderServes(states[k + 1], steps[..k + 1])
  {
    StepWriterServes(g, states[k], steps[..k], steps[k]);
    StepReaderServes(g, states[k], steps[..k], steps[k]);
    assert steps[..k] + [steps[k]] == steps[..k + 1];
  }

  // ------------------------------------------------------------------ what follows for every run

  /**
   * At every moment of every run, what has been written is the data of the write calls that committed, in order and
   * complete; what has been delivered is its first messages, as many as the committed read calls asked for; and the
   * two are at most a ring apart.
   */
  lemma DeliveredIsPrefixOfWritten<T>(g: Geometry, states: seq<State<T>>, steps: seq<Step<T>>, k: nat)
    requires g.Valid() && IsRun(g, states, steps) && k <= |steps|
    ensures states[k].written == AllWritten(steps[..k])
    ensures AllRead(steps[..k]) <= |AllWritten(steps[..k])| <= AllRead(steps[..k]) + g.slots
    ensures states[k].delivered == AllWritten(steps[..k])[..AllRead(steps[..k])]
  {
    RunInv(g, states, steps, k);
    RunServesCalls(g, states, steps, k);
  }

  /** A bounded FIFO over unbounded indices: enqueue what fits, dequeue from the front, or do nothing. */
  ghost predicate FifoStep<T>(capacity: nat, pending: seq<T>, pending': seq<T>) {
    || pending' == pending
    || (pending <= pending' && |pending'| <= capacity)
    || (|pending'| <= |pending| && pending' == pending[|pending| - |pending'|..])
  }

  /** data and n are the arguments of the calls that are open. */
  ghost predicate FifoEffect<T>(g: Geometry, s: State<T>, step: Step<T>, s': State<T>, data: seq<T>, n: nat) {
    && |s.delivered| <= |s.written| && |s'.delivered| <= |s'.written|
    && FifoStep(g.slots, Pending(s), Pending(s'))
    && match step
       case WriterCommit => Pending(s') == Pending(s) + data
       case ReaderCommit =>
         s.reader.ReaderClosing? && |s.reader.out| == n
         && Pending(s) == s.reader.out + Pending(s') && s'.delivered == s.delivered + s.reader.out
       case _ => Pending(s') == Pending(s)
  }

  /** The messages written and not yet delivered. */
  ghost function Pending<T>(s: State<T>): seq<T>
    requires |s.delivered| <= |s.written|
  {
    s.written[|s.delivered|..]
  }

  /**
   * The wrapping, interleaved implementation refines the FIFO: each of its steps is one FIFO step on the pending
   * messages, only a commit changes them, and a commit adds or removes exactly the data of its call.
   */
  lemma StepRefinesFifo<T>(g: Geometry, states: seq<State<T>>, steps: seq<Step<T>>, k: nat)
    requires g.Valid() && IsRun(g, states, steps) && k < |steps|
    ensures FifoEffect(g, states[k], steps[k], states[k + 1], WriteCall(steps[..k]), ReadCall(steps[..k]))
  {
    RunServesCalls(g, states, steps, k);
    RunInv(g, states, steps, k);
    RunInv(g, states, steps, k + 1);
    StepEffect(g, states[k], steps[k], WriteCall(steps[..k]), ReadCall(steps[..k]));
  }

  lemma StepEffect<T>(g: Geometry, s: State<T>, step: Step<T>, data: seq<T>, n: nat)
    requires g.Valid() && Inv(g, s) && Enabled(g, s, step) && Inv(g, Apply(g, s, step))
    requires !s.writer.WriterIdle? ==> s.writer.data == data
    requires !s.reader.ReaderIdle? ==> s.reader.n == n
    ensures FifoEffect(g, s, step, Apply(g, s, step), data, n)
  {
    match step
    case WriterCommit => EnqueueEffect(s.written, s.delivered, s.writer.data);
    case ReaderCommit => CommitReadEffect(g, s, data);
    case _ => NotACommit(g, s, step);
  }

  lemma NotACommit<T>(g: Geometry, s: State<T>, step: Step<T>)
    requires g.Valid() && Enabled(g, s, step) && !step.WriterCommit? && !step.ReaderCommit?
    ensures Apply(g, s, step).written == s.written && Apply(g, s, step).delivered == s.delivered
  {
  }

  lemma CommitReadEffect<T>(g: Geometry, s: State<T>, data: seq<T>)
    requires g.Valid() && Inv(g, s) && Enabled(g, s, ReaderCommit)
    ensures FifoEffect(g, s, ReaderCommit, Apply(g, s, ReaderCommit), data, s.reader.n)
  {
    ReaderCommitKeepsInv(g, s);
    DequeueEffect(s.written, s.delivered, s.reader.out);
  }

  lemma EnqueueEffect<T>(written: seq<T>, delivered: seq<T>, data: seq<T>)
    requires |delivered| <= |written|
    ensures (written + data)[|delivered|..] == written[|delivered|..] + data
    ensures written[|delivered|..] <= (written + data)[|delivered|..]
  {
  }

  lemma DequeueEffect<T>(written: seq<T>, delivered: seq<T>, out: seq<T>)
    requires |delivered| + |out| <= |written| && out == written[|delivered|..|delivered| + |out|]
    ensures var pending, pending' := written[|delivered|..], written[|delivered + out|..];
      pending == out + pending' && pending' == pending[|pending| - |pending'|..]
  {
  }

  /**
   * A call is granted exactly when the counter value it has loaded leaves room for its data, or has as many messages
   * as it asks for; otherwise it is over.  rMarks and wMarks count the messages behind the values of the counters.
   */
  lemma AttemptsDecidedBySeenCounter<T>(g: Geometry, states: seq<State<T>>, steps: seq<Step<T>>, k: nat)
    requires g.Valid() && IsRun(g, states, steps) && k < |steps|
    ensures var s, s', past := states[k], states[k + 1], steps[..k];
      && LoadedByWriter(past) < |s.rMarks| && LoadedByReader(past) < |s.wMarks|
      && (steps[k].WriterBegin? ==>
            if |s.written| + |WriteCall(past)| <= s.rMarks[LoadedByWriter(past)] + g.slots
            then s'.writer.WriterCopying? else s'.writer.WriterIdle?)
      && (steps[k].ReaderBegin? ==>
            if |s.delivered| + ReadCall(past) <= s.wMarks[LoadedByReader(past)]
            then s'.reader.ReaderCopying? else s'.reader.ReaderIdle?)
  {
    SizePositive(g);
    RunInv(g, states, steps, k);
    RunServesCalls(g, states, steps, k);
    match steps[k]
    case WriterBegin => WriterBeginDecides(g, states[k]);
    case ReaderBegin => ReaderBeginDecides(g, states[k]);
    case _ =>
  }

  /** An open copy never runs out of the ring: its next message always has a slot. */
  lemma CopiesStayInRing<T>(g: Geometry, states: seq<State<T>>, steps: seq<Step<T>>, k: nat)
    requires g.Valid() && IsRun(g, states, steps) && k <= |steps|
    ensures states[k].writer.WriterCopying? && states[k].writer.done < |states[k].writer.data| ==>
      Enabled(g, states[k], WriterCopy)
    ensures states[k].reader.ReaderCopying? && |states[k].reader.out| < states[k].reader.n ==>
      Enabled(g, states[k], ReaderCopy)
  {
    var s := states[k];
    RunInv(g, states, steps, k);
    if s.writer.WriterCopying? && s.writer.done < |s.writer.data| {
      RingSlotIs(g, |s.written|, |s.writer.data|, s.writer.done);
    }
    if s.reader.ReaderCopying? && |s.reader.out| < s.reader.n {
      RingSlotIs(g, |s.delivered|, s.reader.n, |s.reader.out|);
    }
  }

  /** With stale loads and at every point of the copies, the two open transactions share no ring slot. */
  lemma OpenTransactionsDisjoint<T>(g: Geometry, states: seq<State<T>>, steps: seq<Step<T>>, k: nat, i: nat, j: nat)
    requires g.Valid() && IsRun(g, states, steps) && k <= |steps|
    requires states[k].writer.WriterCopying? && states[k].reader.ReaderCopying?
    requires i < |states[k].writer.data| && j < states[k].reader.n
    ensures 0 <= RingSlot(g, states[k].writer.tx, i) < g.slots && 0 <= RingSlot(g, states[k].reader.tx, j) < g.slots
    ensures RingSlot(g, states[k].writer.tx, i) != RingSlot(g, states[k].reader.tx, j)
  {
    var s := states[k];
    RunInv(g, states, steps, k);
    RingSlotIs(g, |s.written|, |s.writer.data|, i);
    RingSlotIs(g, |s.delivered|, s.reader.n, j);
    if (|s.written| + i) % g.slots == (|s.delivered| + j) % g.slots {
      ModInjective(|s.written| + i, |s.delivered| + j, g.slots);
    }
  }

  /**
   * In every reachable state the counters are whole messages, the misalignment and overflow guards cannot fire, and
   * the two availabilities add up to the capacity.
   */
  lemma AvailabilityAccounting<T>(g: Geometry, states: seq<State<T>>, steps: seq<Step<T>>, k: nat)
    requires g.Valid() && IsRun(g, states, steps) && k <= |steps|
    ensures var s := states[k];
      && s.wHist != [] && s.rHist != []
      && var w, r := Last(s.wHist), Last(s.rHist);
         && w % g.quantum == 0 && r % g.quantum == 0
         && WrapSub(w, r) <= g.Size()
         && AvailableToRead(g, w, r) == |s.written| - |s.delivered|
         && AvailableToRead(g, w, r) + AvailableToWrite(g, w, r) == g.QuantumCount()
  {
    SizePositive(g);
    RunInv(g, states, steps, k);
    var s := states[k];
    ExactBelow(g, |s.delivered|, |s.written|);
    ExactOffset(g, |s.written|);
    ExactOffset(g, |s.delivered|);
    WithinRing(g, |s.written|, |s.delivered|);
    WrapDifference(g, |s.written|, |s.delivered|);
    AvailabilityExact(g, |s.written|, |s.delivered|);
  }

  /** The histories of s are prefixes of those of s'. */
  ghost predicate GrownTo<T>(s: State<T>, s': State<T>) {
    && s.written <= s'.written && s.delivered <= s'.delivered
    && s.rMarks <= s'.rMarks && s.wMarks <= s'.wMarks
  }

  lemma ApplyGrows<T>(g: Geometry, s: State<T>, step: Step<T>)
    requires g.Valid() && Enabled(g, s, step)
    ensures GrownTo(s, Apply(g, s, step))
  {
  }

  lemma GrownTransitive<T>(s: State<T>, mid: State<T>, s': State<T>)
    requires GrownTo(s, mid) && GrownTo(mid, s')
    ensures GrownTo(s, s')
  {
  }

  lemma {:induction false} GrownChain<T>(states: seq<State<T>>, k: nat, m: nat)
    requires k <= m < |states| && forall i :: 0 <= i < |states| - 1 ==> GrownTo(states[i], states[i + 1])
    ensures GrownTo(states[k], states[m])
    decreases m
  {
    if k < m {
      GrownChain(states, k, m - 1);
      assert GrownTo(states[m - 1], states[m - 1 + 1]);
      GrownTransitive(states[k], states[m - 1], states[m]);
    }
  }

  lemma Grows<T>(g: Geometry, states: seq<State<T>>, steps: seq<Step<T>>, k: nat, m: nat)
    requires g.Valid() && IsRun(g, states, steps) && k <= m <= |steps|
    ensures GrownTo(states[k], states[m])
  {
    forall i | 0 <= i < |states| - 1 ensures GrownTo(states[i], states[i + 1]) {
      ApplyGrows(g, states[i], steps[i]);
    }
    GrownChain(states, k, m);
  }

  /**
   * Free space once observed by the writer stays free until its own next commit, and data once observed by the reader
   * stays available until its own next commit.
   */
  lemma ObservedAvailabilityLasts<T>(g: Geometry, states: seq<State<T>>, steps: seq<Step<T>>, k: nat, m: nat)
    requires g.Valid() && IsRun(g, states, steps) && k <= m <= |steps|
    ensures var s, s' := states[k], states[m];
      && s.rView < |s.rMarks| && s.wView < |s.wMarks|
      && (s'.written == s.written ==>
            s.rMarks[s.rView] + g.slots - |s.written| <= g.slots - (|s'.written| - |s'.delivered|))
      && (s'.delivered == s.delivered ==> s.wMarks[s.wView] - |s.delivered| <= |s'.written| - |s'.delivered|)
  {
    RunInv(g, states, steps, k);
    RunInv(g, states, steps, m);
    Grows(g, states, steps, k, m);
    var s := states[k];
    assert s.rMarks[s.rView] <= Last(s.rMarks) && s.wMarks[s.wView] <= Last(s.wMarks);
  }
}
