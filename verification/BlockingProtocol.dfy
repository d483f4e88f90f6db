/**
 * One thread looping over writeBlocking(nW) and one looping over readBlocking(nR), sharing one event word and
 * using no timeout.  The two calls are mirror images, so every step is written once for a Side.
 */
module BlockingProtocol {
  import opened Arithmetic
  import opened FutexWord
  import opened QueueCore

  datatype Side = Writer | Reader {
    function Other(): Side { if Writer? then Reader else Writer }
  }

  /** notFull is the mask the writer waits on and the reader raises; notEmpty is the opposite one. */
  datatype Config = Config(slots: nat, writeCount: nat, readCount: nat, notFull: Bits, notEmpty: Bits) {
    ghost predicate Valid() {
      && 0 < writeCount <= slots && 0 < readCount <= slots
      && notFull != {} && notEmpty != {} && notFull !! notEmpty
    }
    function WaitMask(side: Side): Bits { if side.Writer? then notFull else notEmpty }
    function WakeMask(side: Side): Bits { WaitMask(side.Other()) }
    function Count(side: Side): nat { if side.Writer? then writeCount else readCount }
  }

  /** Where one thread is inside its blocking call. */
  datatype Pc =
    | Start                   // about to make the first, unconditional attempt
    | Admitted               // the attempt found room or data; the copy and the counter store come next
    | Notify                  // counter stored; atomic_fetch_or of the wake mask comes next
    | Syscall                 // new bits were raised; the futex wake comes next
    | Wait                    // about to atomic_fetch_and the wait mask
    | Futex(expected: Bits)   // about to call futex wait with this expected word
    | Asleep                  // blocked inside the futex wait
    | Woken                   // futex wait returned 0; the second atomic_fetch_and comes next
    | Recheck                 // bits were taken; about to attempt the transfer again

  /** writeCommits and readCommits count the committed transfers of each side. */
  datatype State = State(writeCommits: nat, readCommits: nat, word: Bits, writer: Pc, reader: Pc) {
    function At(side: Side): Pc { if side.Writer? then writer else reader }
    function Move(side: Side, pc: Pc): State {
      if side.Writer? then this.(writer := pc) else this.(reader := pc)
    }
    function Committed(side: Side): State {
      if side.Writer? then this.(writeCommits := writeCommits + 1) else this.(readCommits := readCommits + 1)
    }
  }

  /** Committed messages that the reader has not taken yet. */
  function Level(c: Config, s: State): int { s.writeCommits * c.writeCount - s.readCommits * c.readCount }

  predicate CanTransfer(c: Config, s: State, side: Side) {
    if side.Writer? then c.slots - Level(c, s) >= c.writeCount else Level(c, s) >= c.readCount
  }

  /** That is what beginWrite and beginRead decide on the wrapped counters of such a state. */
  lemma AttemptMatchesQueue(c: Config, s: State, g: Geometry, w: nat, r: nat)
    requires g.Valid() && g.Size() > 0 && g.slots == c.slots
    requires w == s.writeCommits * c.writeCount && r == s.readCommits * c.readCount && Exact(g, w)
    requires 0 <= Level(c, s) <= c.slots
    ensures CanTransfer(c, s, Writer) <==>
      BeginWrite(g, SynchronizedReadWrite, Counter(g, w), Counter(g, r), Counter(g, w), c.writeCount).Granted?
    ensures CanTransfer(c, s, Reader) <==> BeginRead(g, Counter(g, w), Counter(g, r), c.readCount).Granted?
  {
    BeginWriteExact(g, SynchronizedReadWrite, w, r, c.writeCount);
    ExactBelow(g, r, w);
    MulMonotone(w - r, g.slots, g.quantum);
    BeginReadExact(g, w, r, c.readCount);
  }

  predicate Initial(c: Config, s: State) {
    s.writeCommits == 0 && s.readCommits == 0 && s.writer == Start && s.reader == Start
  }

  /** The next atomic step of one side; a sleeping thread has none of its own. */
  function Advance(c: Config, s: State, side: Side): State
    requires s.At(side) != Asleep
  {
    var wait, wake := c.WaitMask(side), c.WakeMask(side);
    match s.At(side)
    case Start => s.Move(side, if CanTransfer(c, s, side) then Admitted else Wait)
    case Recheck => s.Move(side, if CanTransfer(c, s, side) then Admitted else Wait)
    case Admitted => s.Committed(side).Move(side, Notify)
    case Notify =>
      s.(word := Raised(s.word, wake)).Move(side, if NewBits(s.word, wake) != {} then Syscall else Start)
    case Syscall =>
      var woken := if s.At(side.Other()) == Asleep && c.WaitMask(side.Other()) * wake != {}
                   then s.Move(side.Other(), Woken) else s;
      woken.Move(side, Start)
    case Wait =>
      var next := s.(word := Cleared(s.word, wait));
      next.Move(side, if Taken(s.word, wait) != {} then Recheck else Futex(next.word))
    case Futex(expected) => s.Move(side, if s.word == expected then Asleep else Wait)
    case Woken =>
      s.(word := Cleared(s.word, wait)).Move(side, if Taken(s.word, wait) != {} then Recheck else Wait)
  }

  /** The kernel may end a sleep without a wake: a spurious return of 0, or a signal (EINTR, retried). */
  predicate Disturbed(s: State, side: Side, s': State) {
    s.At(side) == Asleep && (s' == s.Move(side, Woken) || s' == s.Move(side, Wait))
  }

  datatype Step = Run(side: Side) | Disturb(side: Side)

  predicate Next(c: Config, s: State, step: Step, s': State) {
    match step
    case Run(side) => s.At(side) != Asleep && s' == Advance(c, s, side)
    case Disturb(side) => Disturbed(s, side, s')
  }

  /** A finite run: states[i] leads to states[i + 1] by steps[i]. */
  ghost predicate IsRun(c: Config, states: seq<State>, steps: seq<Step>) {
    && |states| == |steps| + 1
    && forall i :: 0 <= i < |steps| ==> Next(c, states[i], steps[i], states[i + 1])
  }

  ghost predicate Reaches(c: Config, s: State, s': State) {
    exists states, steps :: IsRun(c, states, steps) && states[0] == s && states[|steps|] == s'
  }

  ghost predicate Reachable(c: Config, s: State) {
    exists s0 :: Initial(c, s0) && Reaches(c, s0, s)
  }

  // ------------------------------------------------------------------ the invariant

  /** The writer's raise of the reader's bits, or the reader's of the writer's, is still to come. */
  predicate RaisePending(s: State, side: Side) { s.At(side.Other()) == Notify }

  predicate BitsSet(c: Config, s: State, side: Side) { Taken(s.word, c.WaitMask(side)) != {} }

  /** A side that has decided to wait cannot have missed the transfer that unblocks it. */
  predicate NotMissed(c: Config, s: State, side: Side) {
    match s.At(side)
    case Wait => CanTransfer(c, s, side) ==> RaisePending(s, side) || BitsSet(c, s, side)
    case Woken => CanTransfer(c, s, side) ==> RaisePending(s, side) || BitsSet(c, s, side)
    case Futex(expected) =>
      && Taken(expected, c.WaitMask(side)) == {}
      && (CanTransfer(c, s, side) ==> RaisePending(s, side) || BitsSet(c, s, side))
    case Asleep =>
      && (CanTransfer(c, s, side) ==>
            RaisePending(s, side) || (s.At(side.Other()) == Syscall && BitsSet(c, s, side)))
      && (BitsSet(c, s, side) ==> s.At(side.Other()) == Syscall)
    case Admitted => CanTransfer(c, s, side)
    case _ => true
  }

  predicate Inv(c: Config, s: State) {
    && 0 <= Level(c, s) <= c.slots
    && NotMissed(c, s, Writer) && NotMissed(c, s, Reader)
  }

  lemma LevelAfterCommit(c: Config, s: State, side: Side)
    ensures side.Writer? ==> Level(c, s.Committed(side)) == Level(c, s) + c.writeCount
    ensures side.Reader? ==> Level(c, s.Committed(side)) == Level(c, s) - c.readCount
  {
  }

  lemma AdvanceKeepsInv(c: Config, s: State, side: Side)
    requires c.Valid() && Inv(c, s) && s.At(side) != Asleep
    ensures Inv(c, Advance(c, s, side))
  {
    var s' := Advance(c, s, side);
    LevelAfterCommit(c, s, side);
    assert NotMissed(c, s', side) && NotMissed(c, s', side.Other());
  }

  lemma NextKeepsInv(c: Config, s: State, step: Step, s': State)
    requires c.Valid() && Inv(c, s) && Next(c, s, step, s')
    ensures Inv(c, s')
  {
    if step.Run? { AdvanceKeepsInv(c, s, step.side); }
  }

  lemma {:induction false} RunKeepsInv(c: Config, states: seq<State>, steps: seq<Step>, k: nat)
    requires c.Valid() && IsRun(c, states, steps) && Inv(c, states[0]) && k <= |steps|
    ensures Inv(c, states[k])
  {
    if k > 0 {
      RunKeepsInv(c, states, steps, k - 1);
      NextKeepsInv(c, states[k - 1], steps[k - 1], states[k]);
    }
  }

  lemma ReachableInv(c: Config, s: State)
    requires c.Valid() && Reachable(c, s)
    ensures Inv(c, s)
  {
    var s0 :| Initial(c, s0) && Reaches(c, s0, s);
    var states, steps :| IsRun(c, states, steps) && states[0] == s0 && states[|steps|] == s;
    RunKeepsInv(c, states, steps, |steps|);
  }

  /**
   * No stranded data: whenever a side sleeps although it could transfer, the other side is between its counter
   * store and the end of its wake.
   */
  lemma NoStrandedTransfer(c: Config, s: State, side: Side)
    requires c.Valid() && Reachable(c, s)
    requires s.At(side) == Asleep && CanTransfer(c, s, side)
    ensures s.At(side.Other()) == Notify || s.At(side.Other()) == Syscall
  {
    ReachableInv(c, s);
    assert NotMissed(c, s, side);
  }

  // ------------------------------------------------------------------ deadlock, exactly

  predicate Deadlocked(s: State) { s.writer == Asleep && s.reader == Asleep }

  ghost function Unit(c: Config): (g: nat)
    requires c.Valid()
    ensures g > 0 && Divides(g, c.writeCount) && Divides(g, c.readCount)
  {
    Gcd(c.readCount, c.writeCount)
  }

  /** The capacity from which the two loops can never block each other. */
  ghost predicate RoomEnough(c: Config)
    requires c.Valid()
  {
    c.slots >= c.readCount + c.writeCount - Unit(c)
  }

  lemma LevelInSteps(c: Config, s: State)
    requires c.Valid()
    ensures Divides(Unit(c), Level(c, s))
  {
    var commits: int := s.readCommits;
    DividesCombination(Unit(c), c.writeCount, c.readCount, s.writeCommits, -commits);
    MinusOut(c.readCount, commits);
  }

  lemma MinusOut(a: int, b: int)
    ensures a * -b == -(b * a)
  {
  }

  lemma NoDeadlockWithRoom(c: Config, s: State)
    requires c.Valid() && RoomEnough(c) && Reachable(c, s)
    ensures !Deadlocked(s)
  {
    ReachableInv(c, s);
    if Deadlocked(s) {
      LevelInSteps(c, s);
      MultiplesApart(Unit(c), Level(c, s), c.readCount);
    }
  }

  lemma ReachesSelf(c: Config, s: State)
    ensures Reaches(c, s, s)
  {
    var states, steps: seq<Step> := [s], [];
    assert IsRun(c, states, steps) && states[0] == s && states[|steps|] == s;
  }

  lemma ReachesExtend(c: Config, s: State, mid: State, side: Side)
    requires Reaches(c, s, mid) && mid.At(side) != Asleep
    ensures Reaches(c, s, Advance(c, mid, side))
  {
    var states, steps :| IsRun(c, states, steps) && states[0] == s && states[|steps|] == mid;
    var end := Advance(c, mid, side);
    var states', steps' := states + [end], steps + [Run(side)];
    assert Next(c, mid, Run(side), end);
    forall i | 0 <= i < |steps'| ensures Next(c, states'[i], steps'[i], states'[i + 1]) {
      if i < |steps| { assert Next(c, states[i], steps[i], states[i + 1]); }
    }
    assert IsRun(c, states', steps') && states'[|steps'|] == end;
  }

  /** k uninterrupted steps of one side. */
  ghost predicate CanSolo(c: Config, s: State, side: Side, k: nat)
    decreases k
  {
    k == 0 || (s.At(side) != Asleep && CanSolo(c, Advance(c, s, side), side, k - 1))
  }

  ghost function Solo(c: Config, s: State, side: Side, k: nat): State
    requires CanSolo(c, s, side, k)
    decreases k
  {
    if k == 0 then s else Solo(c, Advance(c, s, side), side, k - 1)
  }

  lemma {:induction false} ReachesSolo(c: Config, s: State, mid: State, side: Side, k: nat)
    requires Reaches(c, s, mid) && CanSolo(c, mid, side, k)
    ensures Reaches(c, s, Solo(c, mid, side, k))
    decreases k
  {
    if k > 0 {
      ReachesExtend(c, s, mid, side);
      ReachesSolo(c, s, Advance(c, mid, side), side, k - 1);
    }
  }

  /** A call that finds room commits and wakes without waiting. */
  lemma TransferSolo(c: Config, s: State, side: Side) returns (k: nat)
    requires c.Valid() && s.At(side) == Start && s.At(side.Other()) == Start && CanTransfer(c, s, side)
    ensures CanSolo(c, s, side, k)
    ensures var s' := Solo(c, s, side, k);
      s'.writer == Start && s'.reader == Start && s' == s.Committed(side).(word := s'.word)
  {
    var s1 := Advance(c, s, side);
    var s2 := Advance(c, s1, side);
    var s3 := Advance(c, s2, side);
    k := if s3.At(side) == Syscall then 4 else 3;
    if s3.At(side) == Syscall {
      var s4 := Advance(c, s3, side);
      assert CanSolo(c, s4, side, 0) && CanSolo(c, s3, side, 1) && Solo(c, s3, side, 1) == s4;
    }
    assert CanSolo(c, s3, side, k - 3) && CanSolo(c, s2, side, k - 2) && CanSolo(c, s1, side, k - 1);
    assert Solo(c, s, side, k) == Solo(c, s1, side, k - 1) == Solo(c, s2, side, k - 2) == Solo(c, s3, side, k - 3);
  }

  /** A call that finds no room consumes any stale notification and goes to sleep. */
  lemma SleepSolo(c: Config, s: State, side: Side) returns (k: nat)
    requires c.Valid() && s.At(side) == Start && !CanTransfer(c, s, side)
    ensures CanSolo(c, s, side, k)
    ensures var s' := Solo(c, s, side, k); s' == s.Move(side, Asleep).(word := s'.word)
  {
    var s1 := Advance(c, s, side);
    var s2 := Advance(c, s1, side);
    if s2.At(side).Futex? {
      k := SleepFromFutex(c, s2, side);
    } else {
      var s3 := Advance(c, s2, side);
      var s4 := Advance(c, s3, side);
      k := SleepFromFutex(c, s4, side);
      assert CanSolo(c, s3, side, k + 1) && CanSolo(c, s2, side, k + 2);
      assert Solo(c, s2, side, k + 2) == Solo(c, s3, side, k + 1) == Solo(c, s4, side, k);
      k := k + 2;
    }
    assert CanSolo(c, s1, side, k + 1) && CanSolo(c, s, side, k + 2);
    assert Solo(c, s, side, k + 2) == Solo(c, s1, side, k + 1) == Solo(c, s2, side, k);
    k := k + 2;
  }

  lemma SleepFromFutex(c: Config, s: State, side: Side) returns (k: nat)
    requires s.At(side) == Futex(s.word)
    ensures CanSolo(c, s, side, k) && Solo(c, s, side, k) == s.Move(side, Asleep)
  {
    k := 1;
    var s1 := Advance(c, s, side);
    assert CanSolo(c, s1, side, 0) && Solo(c, s1, side, 0) == s1;
  }

  lemma DeadlockFromRest(c: Config, s0: State, s: State) returns (end: State)
    requires c.Valid() && Reaches(c, s0, s) && s.writer == Start && s.reader == Start
    requires !CanTransfer(c, s, Writer) && !CanTransfer(c, s, Reader)
    ensures Reaches(c, s0, end) && Deadlocked(end)
  {
    var k := SleepSolo(c, s, Writer);
    ReachesSolo(c, s0, s, Writer, k);
    var s1 := Solo(c, s, Writer, k);
    assert Level(c, s1) == Level(c, s);
    var k1 := SleepSolo(c, s1, Reader);
    ReachesSolo(c, s0, s1, Reader, k1);
    end := Solo(c, s1, Reader, k1);
  }

  /**
   * In units of the gcd, a write moves the level up by v and a read moves it down by p, which is the same thing
   * modulo p + v.  So while the capacity is below p + v - 1 units the level is forced, k transfers after the start,
   * to be k * v modulo p + v, unless the two calls have blocked each other before.
   */
  lemma {:induction false} ForcedLevel(c: Config, s0: State, g: nat, p: nat, v: nat, k: nat)
      returns (s: State, dead: bool, y: nat)
    requires c.Valid() && g == Unit(c) && c.readCount == p * g && c.writeCount == v * g
    requires !RoomEnough(c) && Initial(c, s0) && p > 0 && v > 0
    ensures Reaches(c, s0, s)
    ensures y == (k * v) % (p + v)
    ensures dead ==> Deadlocked(s)
    ensures !dead ==> s.writer == Start && s.reader == Start && Level(c, s) == y * g
    decreases k
  {
    if k == 0 {
      ReachesSelf(c, s0);
      s, dead, y := s0, false, 0;
      ModMultiple(0, p + v);
    } else {
      s, dead, y := ForcedLevel(c, s0, g, p, v, k - 1);
      if !dead {
        s, dead := ForcedStep(c, s0, s, g, p, v, y);
      }
      NextResidue(k, v, p + v);
      y := (y + v) % (p + v);
    }
  }

  lemma NextResidue(k: nat, v: nat, n: nat)
    requires k > 0 && n > 0
    ensures (((k - 1) * v) % n + v) % n == (k * v) % n
  {
    ModAdd((k - 1) * v, v, n);
    assert (k - 1) * v + v == k * v;
  }

  lemma ForcedStep(c: Config, s0: State, s: State, g: nat, p: nat, v: nat, y: nat) returns (s': State, dead: bool)
    requires c.Valid() && g == Unit(c) && c.readCount == p * g && c.writeCount == v * g && p > 0 && v > 0
    requires !RoomEnough(c) && Reaches(c, s0, s) && s.writer == Start && s.reader == Start
    requires y < p + v && Level(c, s) == y * g
    ensures Reaches(c, s0, s')
    ensures dead ==> Deadlocked(s')
    ensures !dead ==> s'.writer == Start && s'.reader == Start && Level(c, s') == ((y + v) % (p + v)) * g
  {
    dead := false;
    if CanTransfer(c, s, Writer) {
      s' := AfterTransfer(c, s0, s, Writer);
      LevelAfterCommit(c, s, Writer);
      UnitsUp(g, p, v, y, c.slots);
    } else if CanTransfer(c, s, Reader) {
      s' := AfterTransfer(c, s0, s, Reader);
      LevelAfterCommit(c, s, Reader);
      UnitsDown(g, p, v, y);
    } else {
      s' := DeadlockFromRest(c, s0, s);
      dead := true;
    }
  }

  lemma UnitsUp(g: nat, p: nat, v: nat, y: nat, slots: nat)
    requires g > 0 && y * g + v * g <= slots < p * g + v * g - g
    ensures p + v > 0 && ((y + v) % (p + v)) * g == y * g + v * g
  {
    assert (y + v) * g == y * g + v * g && (p + v) * g == p * g + v * g;
    MulStrict(y + v, p + v, g);
    QuotientUnique(y + v, p + v, 0, y + v);
  }

  lemma UnitsDown(g: nat, p: nat, v: nat, y: nat)
    requires g > 0 && p > 0 && p * g <= y * g && y < p + v
    ensures ((y + v) % (p + v)) * g == y * g - p * g
  {
    MulStrict(p, y, g);
    QuotientUnique(y + v, p + v, 1, y - p);
    assert (y - p) * g == y * g - p * g;
  }

  lemma AfterTransfer(c: Config, s0: State, s: State, side: Side) returns (s': State)
    requires c.Valid() && Reaches(c, s0, s) && s.writer == Start && s.reader == Start && CanTransfer(c, s, side)
    ensures Reaches(c, s0, s') && s'.writer == Start && s'.reader == Start
    ensures Level(c, s') == Level(c, s.Committed(side))
  {
    var k := TransferSolo(c, s, side);
    ReachesSolo(c, s0, s, side, k);
    s' := Solo(c, s, side, k);
  }

  /** v is invertible modulo p + v, so some number of transfers forces any wanted residue. */
  lemma ForcedIndex(c: Config, g: nat, p: nat, v: nat, target: nat) returns (k: nat)
    requires c.Valid() && g == Unit(c) && c.readCount == p * g && c.writeCount == v * g
    requires target < p + v
    ensures (k * v) % (p + v) == target
  {
    var n := p + v;
    var x, y := Bezout(c.readCount, c.writeCount);
    UnitBezout(g, p, v, x, y);
    k := InverseTimes(n, v, y - x, -x, target);
  }

  lemma UnitBezout(g: nat, p: nat, v: nat, x: int, y: int)
    requires g > 0 && g == x * (p * g) + y * (v * g)
    ensures (y - x) * v == 1 + -x * (p + v)
  {
    assert x * (p * g) == (x * p) * g && y * (v * g) == (y * v) * g;
    assert (x * p + y * v) * g == 1 * g;
    MulStrict(x * p + y * v, 1, g);
    MulStrict(1, x * p + y * v, g);
    assert x * p + y * v == 1;
    assert -x * (p + v) == -(x * p) - x * v;
  }

  lemma TimesTarget(n: int, v: int, inverse: int, turns: int, target: int)
    requires inverse * v == 1 + turns * n
    ensures (inverse * target) * v == target + (turns * target) * n
  {
    assert (inverse * target) * v == (inverse * v) * target;
    assert (1 + turns * n) * target == target + (turns * n) * target;
    assert (turns * n) * target == (turns * target) * n;
  }

  lemma InverseTimes(n: nat, v: nat, inverse: int, turns: int, target: nat) returns (k: nat)
    requires n > 0 && inverse * v == 1 + turns * n && target < n
    ensures (k * v) % n == target
  {
    k := (inverse * target) % n;
    ModMul(inverse * target, v, n);
    TimesTarget(n, v, inverse, turns, target);
    ModShift(target, turns * target, n);
    QuotientUnique(target, n, 0, target);
  }

  lemma DeadlockWithoutRoom(c: Config, s0: State) returns (s: State)
    requires c.Valid() && !RoomEnough(c) && Initial(c, s0)
    ensures Reaches(c, s0, s) && Deadlocked(s)
  {
    var g := Unit(c);
    var p := DivisorQuotient(g, c.readCount);
    var v := DivisorQuotient(g, c.writeCount);
    MulStrict(0, p, g);
    MulStrict(0, v, g);
    var k := ForcedIndex(c, g, p, v, p - 1);
    var dead: bool, y: nat;
    s, dead, y := ForcedLevel(c, s0, g, p, v, k);
    if !dead {
      assert (p - 1) * g == c.readCount - g;
      s := DeadlockFromRest(c, s0, s);
    }
  }

  /**
   * From an empty queue, whatever the initial word, the two blocking loops can put each other to sleep for good
   * exactly when the capacity is below readCount + writeCount - gcd(readCount, writeCount).
   */
  lemma DeadlockIff(c: Config, s0: State)
    requires c.Valid() && Initial(c, s0)
    ensures (exists s :: Reaches(c, s0, s) && Deadlocked(s)) <==> !RoomEnough(c)
  {
    if RoomEnough(c) {
      forall s | Reaches(c, s0, s) ensures !Deadlocked(s) {
        assert Reachable(c, s);
        NoDeadlockWithRoom(c, s);
      }
    } else {
      var s := DeadlockWithoutRoom(c, s0);
    }
  }

  /** Reading and writing in the same portions is safe at every capacity. */
  lemma EqualCountsNeverDeadlock(c: Config, s: State)
    requires c.Valid() && c.writeCount == c.readCount && Reachable(c, s)
    ensures !Deadlocked(s)
  {
    var n := c.readCount;
    GcdOfEqual(n);
    NoDeadlockWithRoom(c, s);
  }

  lemma GcdOfEqual(n: nat)
    requires n > 0
    ensures Gcd(n, n) == n
  {
    QuotientUnique(n, n, 1, 0);
    assert Gcd(n, n) == Gcd(n, 0);
  }

  // ------------------------------------------------------------------ progress between commits

  /** Bounds on the ranks below. */
  const SIDE_RANK: nat := 7
  const RANK: nat := 104

  /** How often the word can still change before the next commit: a raise is due, or bits can be taken. */
  function WordChanges(c: Config, s: State): nat {
    (if s.writer == Notify then 2 else 0) + (if s.reader == Notify then 2 else 0)
    + (if BitsSet(c, s, Writer) then 1 else 0) + (if BitsSet(c, s, Reader) then 1 else 0)
  }

  /** Steps the side can take before sleeping or committing while the word stays as it is. */
  function SideRank(s: State, side: Side): (rank: nat)
    ensures rank <= SIDE_RANK
  {
    match s.At(side)
    case Asleep => 0
    case Admitted => 0
    case Notify => 0
    case Futex(expected) => if expected == s.word then 1 else 3
    case Wait => 2
    case Start => 3
    case Recheck => 3
    case Woken => 3
    case Syscall => 7
  }

  function Rank(c: Config, s: State): (rank: nat)
    ensures rank <= RANK
  {
    15 * WordChanges(c, s) + SideRank(s, Writer) + SideRank(s, Reader)
  }

  function Commits(s: State): nat { s.writeCommits + s.readCommits }

  /** Every step either commits a transfer or moves the system closer to a commit or to sleep. */
  lemma StepProgress(c: Config, s: State, side: Side)
    requires c.Valid() && s.At(side) != Asleep
    ensures var s' := Advance(c, s, side);
      if s.At(side) == Admitted then Commits(s') == Commits(s) + 1
      else Commits(s') == Commits(s) && Rank(c, s') < Rank(c, s)
  {
    var s' := Advance(c, s, side);
    match s.At(side)
    case Notify => RaiseUsesWordChange(c, s, side);
    case Wait => TakeUsesWordChange(c, s, side);
    case Woken => TakeUsesWordChange(c, s, side);
    case _ =>
  }

  lemma RaiseUsesWordChange(c: Config, s: State, side: Side)
    requires c.Valid() && s.At(side) == Notify
    ensures WordChanges(c, Advance(c, s, side)) < WordChanges(c, s)
  {
    assert Taken(Raised(s.word, c.WakeMask(side)), c.WaitMask(side)) == Taken(s.word, c.WaitMask(side));
  }

  lemma TakeUsesWordChange(c: Config, s: State, side: Side)
    requires c.Valid() && (s.At(side) == Wait || s.At(side) == Woken)
    ensures var s' := Advance(c, s, side);
      if BitsSet(c, s, side) then WordChanges(c, s') < WordChanges(c, s)
      else s'.word == s.word && WordChanges(c, s') == WordChanges(c, s)
  {
    assert Taken(Cleared(s.word, c.WaitMask(side)), c.WakeMask(side)) == Taken(s.word, c.WakeMask(side));
    assert Taken(Cleared(s.word, c.WaitMask(side)), c.WaitMask(side)) == {};
    if !BitsSet(c, s, side) {
      assert forall b :: b in s.word && b in c.WaitMask(side) ==> b in Taken(s.word, c.WaitMask(side));
      assert Cleared(s.word, c.WaitMask(side)) == s.word;
    }
  }

  ghost predicate Undisturbed(steps: seq<Step>) {
    forall i :: 0 <= i < |steps| ==> steps[i].Run?
  }

  /** Under any schedule at most RANK steps pass between two commits. */
  lemma {:induction false} StepsBetweenCommits(c: Config, states: seq<State>, steps: seq<Step>, k: nat)
    requires c.Valid() && IsRun(c, states, steps) && Undisturbed(steps) && k <= |steps|
    ensures k <= (RANK + 1) * (Commits(states[k]) - Commits(states[0])) + Rank(c, states[0]) - Rank(c, states[k])
  {
    if k > 0 {
      StepsBetweenCommits(c, states, steps, k - 1);
      assert Next(c, states[k - 1], steps[k - 1], states[k]);
      StepProgress(c, states[k - 1], steps[k - 1].side);
    }
  }

  /**
   * With enough room, from every reachable state some thread can move, and any run of at least n * (RANK + 1) + RANK
   * undisturbed steps commits at least n transfers, whatever the schedule.
   */
  lemma KeepsTransferring(c: Config, states: seq<State>, steps: seq<Step>, n: nat)
    requires c.Valid() && RoomEnough(c) && IsRun(c, states, steps) && Undisturbed(steps)
    requires Reachable(c, states[0])
    ensures |steps| >= n * (RANK + 1) + RANK ==> Commits(states[|steps|]) >= Commits(states[0]) + n
    ensures forall i :: 0 <= i < |states| ==> states[i].writer != Asleep || states[i].reader != Asleep
  {
    StepsBetweenCommits(c, states, steps, |steps|);
    forall i | 0 <= i < |states| ensures !Deadlocked(states[i]) {
      ReachableOnRun(c, states, steps, i);
      NoDeadlockWithRoom(c, states[i]);
    }
  }

  lemma ReachableOnRun(c: Config, states: seq<State>, steps: seq<Step>, k: nat)
    requires IsRun(c, states, steps) && Reachable(c, states[0]) && k <= |steps|
    ensures Reachable(c, states[k])
  {
    var s0 :| Initial(c, s0) && Reaches(c, s0, states[0]);
    var before, via :| IsRun(c, before, via) && before[0] == s0 && before[|via|] == states[0];
    var states', steps' := before[..|via|] + states[..k + 1], via + steps[..k];
    forall i | 0 <= i < |steps'| ensures Next(c, states'[i], steps'[i], states'[i + 1]) {
      if i < |via| {
        assert Next(c, before[i], via[i], before[i + 1]);
      } else {
        assert Next(c, states[i - |via|], steps[i - |via|], states[i - |via| + 1]);
      }
    }
    assert IsRun(c, states', steps') && states'[0] == s0 && states'[|steps'|] == states[k];
  }
}
