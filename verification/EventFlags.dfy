/**
 * EventFlag::wake and EventFlag::wait as the Linux build runs them, and the timed loop that readBlocking and
 * writeBlocking put around wait, against a kernel in which time passes and other threads change the word between any
 * two operations.  Times are nanoseconds of one monotone clock.
 */
module EventFlags {
  import opened Common
  import opened FutexWord

  const NANOS_PER_SECOND: nat := 1_000_000_000

  datatype Errno = EAGAIN | EINTR | ETIMEDOUT | EINVAL

  datatype FutexResult = Returned | Failed(errno: Errno)

  datatype Status = NoError | BadValue | Error(errno: Errno)

  datatype Timespec = Timespec(sec: int, nsec: int) {
    function Nanos(): int { sec * NANOS_PER_SECOND + nsec }
    predicate Normalised() { 0 <= nsec < NANOS_PER_SECOND }
  }

  /** C division and remainder truncate toward zero. */
  function TruncatedDiv(a: int, b: nat): int
    requires b > 0
  {
    if a >= 0 then a / b else -(-a / b)
  }

  function TruncatedMod(a: int, b: nat): int
    requires b > 0
  {
    a - TruncatedDiv(a, b) * b
  }

  /** addNanosecondsToCurrentTime after the clock has been read. */
  function AddNanoseconds(now: Timespec, nanoSeconds: int): Timespec {
    var sec := now.sec + TruncatedDiv(nanoSeconds, NANOS_PER_SECOND);
    var nsec := now.nsec + TruncatedMod(nanoSeconds, NANOS_PER_SECOND);
    if nsec >= NANOS_PER_SECOND then Timespec(sec + 1, nsec - NANOS_PER_SECOND) else Timespec(sec, nsec)
  }

  /**
   * The sum is always right as a number of nanoseconds; it is a normalised timespec exactly when the duration is not
   * negative or its sub-second part does not borrow from the seconds.
   */
  lemma AddNanosecondsExact(now: Timespec, nanoSeconds: int)
    requires now.Normalised()
    ensures AddNanoseconds(now, nanoSeconds).Nanos() == now.Nanos() + nanoSeconds
    ensures AddNanoseconds(now, nanoSeconds).Normalised()
            <==> nanoSeconds >= 0 || now.nsec >= -nanoSeconds % NANOS_PER_SECOND
  {
    var whole, rest := TruncatedDiv(nanoSeconds, NANOS_PER_SECOND), TruncatedMod(nanoSeconds, NANOS_PER_SECOND);
    assert whole * NANOS_PER_SECOND + rest == nanoSeconds;
    assert rest == if nanoSeconds >= 0 then nanoSeconds % NANOS_PER_SECOND else -(-nanoSeconds % NANOS_PER_SECOND);
  }

  /**
   * What a call did, in order: its atomic operations with the word before each, its futex calls, what each finished
   * wait answered, and how each non-blocking attempt at the transfer ended.  at is the time of the operation.
   */
  datatype Op =
    | FetchedOr(mask: Bits, before: Bits)
    | FetchedAnd(mask: Bits, before: Bits)                // cleared the bits of mask
    | Slept(expected: Bits, mask: Bits, deadline: Option<Timespec>, at: int, result: FutexResult)
    | WokeSleepers(mask: Bits)
    | Answered(timeout: int, status: Status, efState: Bits)
    | Tried(ok: bool, at: int)

  /** The bits that an operation took out of the word. */
  function Found(op: Op): Bits { if op.FetchedAnd? then Taken(op.before, op.mask) else {} }

  /** The futex syscalls, the clock, and whatever the other threads do in between. */
  class Kernel {
    /** Time that every futex wait takes at least. */
    const tick: nat
    var now: int
    var word: Bits

    ghost var trace: seq<Op>

    constructor (tick: nat) {
      this.tick := tick;
      now, word, trace := 0, {}, [];
    }

    method OthersRun(least: nat)
      modifies `now, `word
      ensures now >= old(now) + least
    {
      var later: int :| later >= now + least;
      now, word := later, *;
    }

    method ElapsedRealtimeNano() returns (t: int)
      modifies `now, `word
      ensures now >= old(now) && t == now
    {
      OthersRun(0);
      t := now;
    }

    method ClockGettime() returns (t: Timespec)
      modifies `now, `word
      ensures now >= old(now) && t.Normalised() && t.Nanos() == now
    {
      OthersRun(0);
      t := Timespec(now / NANOS_PER_SECOND, now % NANOS_PER_SECOND);
    }

    method FetchOr(mask: Bits) returns (before: Bits)
      modifies `now, `word, `trace
      ensures now >= old(now) && word == Raised(before, mask)
      ensures trace == old(trace) + [FetchedOr(mask, before)]
    {
      OthersRun(0);
      before, word := word, Raised(word, mask);
      trace := trace + [FetchedOr(mask, before)];
    }

    method FetchAnd(mask: Bits) returns (before: Bits)
      modifies `now, `word, `trace
      ensures now >= old(now) && word == Cleared(before, mask)
      ensures trace == old(trace) + [FetchedAnd(mask, before)]
    {
      OthersRun(0);
      before, word := word, Cleared(word, mask);
      trace := trace + [FetchedAnd(mask, before)];
    }

    /** FUTEX_WAIT_BITSET: ETIMEDOUT is never early, and only a malformed deadline is invalid. */
    method FutexWait(expected: Bits, mask: Bits, deadline: Option<Timespec>) returns (ret: FutexResult, ghost at: int)
      modifies `now, `word, `trace
      ensures old(now) <= at && now >= at + tick
      ensures trace == old(trace) + [Slept(expected, mask, deadline, at, ret)]
      ensures ret == Failed(ETIMEDOUT) ==> deadline.Some? && now >= deadline.value.Nanos()
      ensures ret == Failed(EINVAL) ==> deadline.Some? && !deadline.value.Normalised()
    {
      at := now;
      OthersRun(tick);
      if deadline.Some? && !deadline.value.Normalised() {
        ret := Failed(EINVAL);
      } else if word != expected {
        ret := Failed(EAGAIN);
      } else {
        OthersRun(0);
        var woken: bool, expired: bool := *, *;
        if deadline.Some? && expired {
          if now < deadline.value.Nanos() { now := deadline.value.Nanos(); }
          ret := Failed(ETIMEDOUT);
        } else {
          ret := if woken then Returned else Failed(EINTR);
        }
      }
      trace := trace + [Slept(expected, mask, deadline, at, ret)];
    }

    /** FUTEX_WAKE_BITSET, which touches neither the word nor the caller. */
    method FutexWake(mask: Bits)
      modifies `trace
      ensures trace == old(trace) + [WokeSleepers(mask)]
    {
      trace := trace + [WokeSleepers(mask)];
    }
  }

  // ------------------------------------------------------------------ wake

  /** One fetch_or of the whole mask, and a futex wake on that mask exactly if some bit of it was new. */
  ghost predicate WakeRun(ops: seq<Op>, bitmask: Bits) {
    if bitmask == {} then ops == []
    else
      && ops != [] && ops[0].FetchedOr? && ops[0].mask == bitmask
      && ops[1..] == if exists b :: b in bitmask && b !in ops[0].before then [WokeSleepers(bitmask)] else []
  }

  method Wake(k: Kernel, bitmask: Bits) returns (syscall: bool, ghost ops: seq<Op>)
    modifies k`now, k`word, k`trace
    ensures k.now >= old(k.now)
    ensures k.trace == old(k.trace) + ops && WakeRun(ops, bitmask)
    ensures syscall <==> exists b :: b in bitmask && b !in ops[0].before
    ensures bitmask == {} ==> k.word == old(k.word)
    ensures bitmask <= k.word
  {
    if bitmask == {} {
      return false, [];
    }
    var before := k.FetchOr(bitmask);
    ops := [FetchedOr(bitmask, before)];
    assert forall b :: b in NewBits(before, bitmask) <==> b in bitmask && b !in before;
    syscall := NewBits(before, bitmask) != {};
    if syscall {
      k.FutexWake(bitmask);
      ops := ops + [WokeSleepers(bitmask)];
    }
  }

  // ------------------------------------------------------------------ wait

  /**
   * A futex wait issued at or after time from: untimed for a zero timeout, else due at from + timeout at the earliest
   * and no later than the timeout after the wait begins.
   */
  ghost predicate DeadlineFor(op: Op, from: int, timeout: int)
    requires op.Slept?
  {
    if timeout == 0 then op.deadline == None
    else
      && op.deadline.Some?
      && from + timeout <= op.deadline.value.Nanos() <= op.at + timeout
      && (timeout > 0 ==> op.deadline.value.Normalised())
  }

  ghost predicate SleepsFrom(ops: seq<Op>, start: int, timeout: int) {
    forall i :: 0 <= i < |ops| && ops[i].Slept? ==> DeadlineFor(ops[i], start, timeout)
  }

  ghost predicate NothingFound(ops: seq<Op>) {
    forall i :: 0 <= i < |ops| ==> Found(ops[i]) == {}
  }

  /** A futex wait comes right after a take that found nothing, on that take's mask, and expects what it has left. */
  ghost predicate SleepsAfterTake(ops: seq<Op>, i: nat)
    requires i < |ops| && ops[i].Slept?
  {
    && i > 0 && ops[i - 1].FetchedAnd? && Found(ops[i - 1]) == {}
    && ops[i].mask == ops[i - 1].mask && ops[i].expected == ops[i - 1].before
  }

  /**
   * A wait only takes, and sleeps after a take that found nothing: it does not sleep on bits it could have, and after
   * its first take it takes again only when it has slept.
   */
  ghost predicate WaitRun(ops: seq<Op>, bitmask: Bits) {
    && (forall i :: 0 <= i < |ops| ==>
          (ops[i].FetchedAnd? || (ops[i].Slept? && SleepsAfterTake(ops, i))) && ops[i].mask == bitmask)
    && (|ops| > 1 ==> ops[1].Slept?)
  }

  /** The bits handed back are those found by the last operation, and nothing was found before that. */
  ghost predicate HandsBack(ops: seq<Op>, efState: Bits) {
    ops != [] && efState == Found(Last(ops)) != {} && NothingFound(Front(ops))
  }

  /** How the answer of one pass comes from its futex wait, if it had one. */
  ghost predicate PassAnswer(ops: seq<Op>, status: Status, efState: Bits) {
    match |ops|
    case 1 => status.NoError?
    case 2 => ops[1].Slept? && ops[1].result.Failed? && status == Error(ops[1].result.errno)
    case 3 => ops[1].Slept? && ops[1].result.Returned? && (status == Error(EINTR) || status.NoError?)
    case _ => false
  }

  /** given is the caller's efState, which a BAD_VALUE return leaves alone. */
  method WaitHelper(k: Kernel, bitmask: Bits, given: Bits, timeoutNanoSeconds: int)
    returns (status: Status, efState: Bits, ghost ops: seq<Op>)
    modifies k`now, k`word, k`trace
    ensures k.now >= old(k.now) && k.trace == old(k.trace) + ops
    ensures status.BadValue? <==> bitmask == {}
    ensures status.BadValue? ==> efState == given && ops == [] && k.word == old(k.word)
    ensures !status.BadValue? ==> WaitRun(ops, bitmask) && PassAnswer(ops, status, efState)
    ensures status.NoError? ==> HandsBack(ops, efState) && efState <= bitmask && k.word !! bitmask
    ensures status.Error? ==> NothingFound(ops) && efState == {} && |ops| > 1 && k.now >= old(k.now) + k.tick
    ensures SleepsFrom(ops, old(k.now), timeoutNanoSeconds)
    ensures status == Error(ETIMEDOUT) ==> timeoutNanoSeconds != 0 && k.now >= old(k.now) + timeoutNanoSeconds
    ensures timeoutNanoSeconds >= 0 ==> status != Error(EINVAL)
  {
    ops := [];
    if bitmask == {} {
      return BadValue, given, ops;
    }
    var before := k.FetchAnd(bitmask);
    ops := ops + [FetchedAnd(bitmask, before)];
    var setBits := Taken(before, bitmask);
    if setBits != {} {
      return NoError, setBits, ops;
    }
    var efWord := Cleared(before, bitmask);
    NothingCleared(before, bitmask);
    var ret: FutexResult;
    ghost var at: int;
    ghost var deadline: Option<Timespec> := None;
    if timeoutNanoSeconds != 0 {
      var current := k.ClockGettime();
      AddNanosecondsExact(current, timeoutNanoSeconds);
      deadline := Some(AddNanoseconds(current, timeoutNanoSeconds));
      ret, at := k.FutexWait(efWord, bitmask, Some(AddNanoseconds(current, timeoutNanoSeconds)));
    } else {
      ret, at := k.FutexWait(efWord, bitmask, None);
    }
    ops := ops + [Slept(efWord, bitmask, deadline, at, ret)];
    if ret.Failed? {
      return Error(ret.errno), {}, ops;
    }
    before := k.FetchAnd(bitmask);
    ops := ops + [FetchedAnd(bitmask, before)];
    efState := Taken(before, bitmask);
    status := if efState == {} then Error(EINTR) else NoError;
  }

  lemma NothingCleared(word: Bits, mask: Bits)
    requires Taken(word, mask) == {}
    ensures Cleared(word, mask) == word
  {
    assert forall b :: b in word && b in mask ==> b in Taken(word, mask);
  }

  /** One more pass after passes that found nothing. */
  lemma PassAppended(ops: seq<Op>, pass: seq<Op>, bitmask: Bits)
    requires WaitRun(ops, bitmask) && NothingFound(ops) && |ops| != 1
    requires WaitRun(pass, bitmask) && pass != []
    ensures WaitRun(ops + pass, bitmask)
    ensures NothingFound(pass) ==> NothingFound(ops + pass)
    ensures NothingFound(Front(pass)) ==> NothingFound(Front(ops + pass)) && Last(ops + pass) == Last(pass)
  {
    var all := ops + pass;
    forall i: nat | i < |all| && all[i].Slept? ensures SleepsAfterTake(all, i) {
      if i < |ops| { assert SleepsAfterTake(ops, i); } else { assert SleepsAfterTake(pass, i - |ops|); }
    }
    assert Front(all) == ops + Front(pass);
  }

  /** Sleeps begun later, with the time that was left, are right for the whole call. */
  lemma SleepsJoined(ops: seq<Op>, more: seq<Op>, start: int, timeout: int, innerStart: int, left: int)
    requires SleepsFrom(ops, start, timeout) && SleepsFrom(more, innerStart, left)
    requires if timeout == 0 then left == 0 else 0 < left <= timeout && innerStart + left >= start + timeout
    ensures SleepsFrom(ops + more, start, timeout)
  {
    forall i | 0 <= i < |ops + more| && (ops + more)[i].Slept? ensures DeadlineFor((ops + more)[i], start, timeout) {
      if i >= |ops| { assert DeadlineFor(more[i - |ops|], innerStart, left); }
    }
  }

  /**
   * wait with retry, watched for at most rounds turns of its loop; finished is false if it is still waiting then.
   * start is the time at which it takes its first clock reading, ops what it did to the word.
   */
  method Wait(k: Kernel, bitmask: Bits, given: Bits, timeoutNanoSeconds: int, rounds: nat)
    returns (finished: bool, status: Status, efState: Bits, ghost start: int, ghost ops: seq<Op>)
    modifies k`now, k`word, k`trace
    ensures old(k.now) <= start <= k.now
    ensures k.trace
            == old(k.trace) + ops + if finished then [Answered(timeoutNanoSeconds, status, efState)] else []
    ensures WaitRun(ops, bitmask) && SleepsFrom(ops, start, timeoutNanoSeconds)
    ensures if finished && status.NoError? then HandsBack(ops, efState) else NothingFound(ops)
    ensures bitmask == {} ==> ops == []
    ensures finished ==> status != Error(EAGAIN) && status != Error(EINTR) && status != Error(EINVAL)
    ensures finished && bitmask != {} ==>
      status == Error(ETIMEDOUT) || (status.NoError? && efState != {} && efState <= bitmask)
    ensures finished && bitmask == {} ==> status == Error(ETIMEDOUT) || (status.BadValue? && efState == given)
    ensures finished && status == Error(ETIMEDOUT) ==>
      timeoutNanoSeconds != 0 && k.now >= start + timeoutNanoSeconds && efState == {}
    ensures !finished ==> |ops| >= 2 * rounds
    ensures timeoutNanoSeconds < 0 && rounds > 0 ==> finished && ops == []
    ensures timeoutNanoSeconds > 0 && k.tick > 0 && rounds > timeoutNanoSeconds ==> finished
  {
    var shouldTimeOut := timeoutNanoSeconds != 0;
    var timeout, prevTimeNs := timeoutNanoSeconds, 0;
    if shouldTimeOut {
      prevTimeNs := k.ElapsedRealtimeNano();
    }
    start, ops := k.now, [];
    status, efState := NoError, given;
    finished := false;
    var turn := 0;
    while turn < rounds && !finished
      invariant 0 <= turn <= rounds && start <= k.now
      invariant k.trace == old(k.trace) + ops
      invariant WaitRun(ops, bitmask) && SleepsFrom(ops, start, timeoutNanoSeconds)
      invariant if finished && status.NoError? then HandsBack(ops, efState) else NothingFound(ops)
      invariant bitmask == {} ==> ops == []
      invariant !finished ==> |ops| != 1 && |ops| >= 2 * turn
      invariant !finished && bitmask == {} ==> turn == 0 && efState == given
      invariant finished ==> FinishedWait(k, bitmask, given, start, timeoutNanoSeconds, status, efState)
      invariant !finished && shouldTimeOut ==>
        timeout == timeoutNanoSeconds - (prevTimeNs - start) && start <= prevTimeNs <= k.now
      invariant !shouldTimeOut ==> timeout == 0
      invariant !finished && shouldTimeOut && k.tick > 0 ==> k.now >= start + turn
      invariant timeoutNanoSeconds < 0 ==> ops == [] && (finished || turn == 0)
      invariant !finished && shouldTimeOut && turn > 0 && k.tick > 0 ==> turn <= timeoutNanoSeconds
      decreases rounds - turn, !finished
    {
      if shouldTimeOut {
        var currentTimeNs := k.ElapsedRealtimeNano();
        timeout := timeout - (currentTimeNs - prevTimeNs);
        prevTimeNs := currentTimeNs;
      }
      if shouldTimeOut && timeout <= 0 {
        finished, status, efState := true, Error(ETIMEDOUT), {};
      } else {
        ghost var pass: seq<Op>, from := [], k.now;
        status, efState, pass := WaitHelper(k, bitmask, efState, timeout);
        SleepsJoined(ops, pass, start, timeoutNanoSeconds, from, timeout);
        if bitmask != {} { PassAppended(ops, pass, bitmask); }
        assert old(k.trace) + ops + pass == old(k.trace) + (ops + pass);
        ops := ops + pass;
        finished := status != Error(EAGAIN) && status != Error(EINTR);
        turn := turn + 1;
      }
    }
    if finished {
      k.trace := k.trace + [Answered(timeoutNanoSeconds, status, efState)];
    }
  }

  /** What a finished retrying wait may answer. */
  ghost predicate FinishedWait(k: Kernel, bitmask: Bits, given: Bits, start: int, timeout: int, status: Status,
                               efState: Bits)
    reads k`now
  {
    match status
    case NoError => bitmask != {} && efState != {} && efState <= bitmask
    case BadValue => bitmask == {} && efState == given
    case Error(errno) => errno == ETIMEDOUT && timeout != 0 && k.now >= start + timeout && efState == {}
  }

  // ------------------------------------------------------------------ the blocking calls

  /**
   * How a blocking call ended: Expired by its own clock, WaitExpired by that of its wait; Pending if it is still in its
   * loop when the watch ends.
   */
  datatype Exit = Refused | Transferred | Expired | WaitExpired | Broken | Pending

  /** The non-blocking write or read that the loop retries; whether it succeeds is up to the other side. */
  method Attempt(k: Kernel) returns (ok: bool, ghost at: int)
    modifies k`now, k`word, k`trace
    ensures old(k.now) <= at <= k.now && k.trace == old(k.trace) + [Tried(ok, at)]
  {
    k.OthersRun(0);
    at := k.now;
    ok := *;
    k.trace := k.trace + [Tried(ok, at)];
  }

  /** The part of operation i of a blocking call in the whole call, which began its waiting at time start. */
  ghost predicate InPlace(ops: seq<Op>, i: nat, waitMask: Bits, start: int, timeOut: int)
    requires i < |ops|
  {
    match ops[i]
    case FetchedAnd(mask, _) =>
      // bits are taken only to be answered
      mask == waitMask && (Found(ops[i]) != {} ==>
        i + 1 < |ops| && ops[i + 1].Answered? && ops[i + 1].status.NoError? && ops[i + 1].efState == Found(ops[i]))
    case Slept(_, _, _, _, _) =>
      ops[i].mask == waitMask && SleepsAfterTake(ops, i) && DeadlineFor(ops[i], start, timeOut)
    case Answered(timeout, status, _) =>
      // no wait begins without time left; success is followed by an attempt, and a timeout ends the call
      && (if timeOut == 0 then timeout == 0 else 0 < timeout <= timeOut)
      && (if status.NoError? then i + 1 < |ops| && ops[i + 1].Tried?
          else status == Error(ETIMEDOUT) && i + 1 == |ops|)
    case Tried(ok, at) =>
      // it does not poll: an attempt is the first, the answer to a notification, or the last one after the deadline
      && (ok ==> i + 1 == |ops|)
      && (i > 0 ==> ops[i - 1].Answered? || (i + 1 == |ops| && timeOut != 0 && at >= start + timeOut))
    case _ => false
  }

  ghost predicate CallRun(ops: seq<Op>, waitMask: Bits, start: int, timeOut: int) {
    && ops != [] && ops[0].Tried? && ops[0].at <= start
    && forall i :: 0 <= i < |ops| ==> InPlace(ops, i, waitMask, start, timeOut)
  }

  /** What the last operation says about the exit. */
  ghost predicate ExitFor(ops: seq<Op>, exit: Exit, start: int, timeOut: int)
    requires ops != []
  {
    match exit
    case Transferred => Last(ops).Tried? && Last(ops).ok
    case Expired => Last(ops).Tried? && !Last(ops).ok && timeOut != 0 && Last(ops).at >= start + timeOut
    case WaitExpired => Last(ops).Answered? && Last(ops).status == Error(ETIMEDOUT)
    case Pending => Last(ops).Tried? ==> !Last(ops).ok
    case _ => false
  }

  /** Back at the top of the loop, after an attempt that failed. */
  ghost predicate AtLoopTop(ops: seq<Op>) {
    ops != [] && Last(ops).Tried? && !Last(ops).ok && (|ops| > 1 ==> ops[|ops| - 2].Answered?)
  }

  /**
   * writeBlocking, and with the roles of the masks exchanged readBlocking: possible says that an event flag exists and
   * the count fits the queue.  The call returns true exactly for Transferred.  It is watched for at most rounds turns
   * of its loop and of the loop inside each wait.  ops is what it did before its own wake, wakes that wake.
   */
  method TransferBlocking(k: Kernel, possible: bool, waitMask: Bits, wakeMask: Bits, timeOutNanos: int, rounds: nat)
    returns (result: bool, exit: Exit, ghost start: int, ghost ops: seq<Op>, ghost wakes: seq<Op>)
    modifies k`now, k`word, k`trace
    ensures old(k.now) <= start <= k.now && k.trace == old(k.trace) + ops + wakes
    ensures exit.Refused? <==> !possible || waitMask == {}
    ensures exit.Refused? ==> ops == [] && k.word == old(k.word)
    ensures !exit.Refused? ==> CallRun(ops, waitMask, start, timeOutNanos) && ExitFor(ops, exit, start, timeOutNanos)
    ensures exit.Expired? || exit.WaitExpired? ==> timeOutNanos != 0 && k.now >= start + timeOutNanos
    ensures exit.Pending? ==> |ops| > rounds
    ensures result <==> exit.Transferred?
    ensures if result then WakeRun(wakes, wakeMask) else wakes == []
  {
    start, ops, wakes := k.now, [], [];
    if !possible || waitMask == {} {
      return false, Refused, start, ops, wakes;
    }
    ghost var at: int;
    result, at := Attempt(k);
    start, ops := k.now, [Tried(result, at)];
    if result {
      exit := Transferred;
    } else {
      exit, start, ops := WaitForTransfer(k, waitMask, timeOutNanos, rounds, old(k.trace), at);
      result := exit.Transferred?;
    }
    if result && wakeMask != {} {
      var syscall: bool;
      syscall, wakes := Wake(k, wakeMask);
    }
  }

  /** The loop of the blocking calls, entered after the attempt at time firstAt has failed; ops begins with that. */
  method WaitForTransfer(k: Kernel, waitMask: Bits, timeOutNanos: int, rounds: nat, ghost before: seq<Op>,
                         ghost firstAt: int)
    returns (exit: Exit, ghost start: int, ghost ops: seq<Op>)
    requires waitMask != {} && firstAt <= k.now && k.trace == before + [Tried(false, firstAt)]
    modifies k`now, k`word, k`trace
    ensures old(k.now) <= start <= k.now
    ensures k.trace == before + ops
    ensures CallRun(ops, waitMask, start, timeOutNanos) && ExitFor(ops, exit, start, timeOutNanos)
    ensures exit.Expired? || exit.WaitExpired? ==> timeOutNanos != 0 && k.now >= start + timeOutNanos
    ensures exit.Pending? ==> |ops| > rounds
  {
    var shouldTimeOut := timeOutNanos != 0;
    var timeout, prevTimeNanos := timeOutNanos, 0;
    if shouldTimeOut {
      prevTimeNanos := k.ElapsedRealtimeNano();
    }
    start, ops := k.now, [Tried(false, firstAt)];
    for turn := 0 to rounds
      invariant start <= k.now && |ops| > turn
      invariant k.trace == before + ops
      invariant CallRun(ops, waitMask, start, timeOutNanos) && AtLoopTop(ops)
      invariant shouldTimeOut ==> timeout == timeOutNanos - (prevTimeNanos - start) && start <= prevTimeNanos <= k.now
      invariant !shouldTimeOut ==> timeout == 0
    {
      if shouldTimeOut {
        var currentTimeNs := k.ElapsedRealtimeNano();
        timeout := timeout - (currentTimeNs - prevTimeNanos);
        prevTimeNanos := currentTimeNs;
        if timeout <= 0 {
          var last, lastAt := Attempt(k);
          FinalAttempt(ops, Tried(last, lastAt), waitMask, start, timeOutNanos);
          return if last then Transferred else Expired, start, ops + [Tried(last, lastAt)];
        }
      }
      var finished, status, efState, waitStart, waited := Wait(k, waitMask, {}, timeout, rounds);
      ghost var tail := if finished then [Answered(timeout, status, efState)] else [];
      WaitInCall(waited, start, timeOutNanos, waitStart, timeout);
      ghost var sofar := ops;
      ops := sofar + waited + tail;
      TraceJoined(before, sofar, waited, tail);
      if !finished {
        WaitAppended(sofar, waited, tail, waitMask, start, timeOutNanos);
        return Pending, start, ops;
      }
      if status != Error(ETIMEDOUT) && !status.NoError? {
        return Broken, start, ops;
      }
      if status == Error(ETIMEDOUT) {
        WaitAppended(sofar, waited, tail, waitMask, start, timeOutNanos);
        return WaitExpired, start, ops;
      }
      if efState * waitMask != {} {
        var done, doneAt := Attempt(k);
        WaitAppended(sofar, waited, tail + [Tried(done, doneAt)], waitMask, start, timeOutNanos);
        ops := sofar + waited + (tail + [Tried(done, doneAt)]);
        if done {
          return Transferred, start, ops;
        }
      }
    }
    return Pending, start, ops;
  }

  lemma WaitInCall(waited: seq<Op>, start: int, timeout: int, innerStart: int, left: int)
    requires SleepsFrom(waited, innerStart, left)
    requires if timeout == 0 then left == 0 else 0 < left <= timeout && innerStart + left >= start + timeout
    ensures SleepsFrom(waited, start, timeout)
  {
    SleepsJoined([], waited, start, timeout, innerStart, left);
    assert [] + waited == waited;
  }

  lemma TraceJoined(before: seq<Op>, ops: seq<Op>, waited: seq<Op>, tail: seq<Op>)
    ensures before + ops + waited + tail == before + (ops + waited + tail)
    ensures forall last: Op :: before + (ops + waited + tail) + [last] == before + (ops + waited + (tail + [last]))
  {
  }

  lemma FinalAttempt(ops: seq<Op>, last: Op, waitMask: Bits, start: int, timeOut: int)
    requires CallRun(ops, waitMask, start, timeOut) && AtLoopTop(ops)
    requires last.Tried? && timeOut != 0 && last.at >= start + timeOut
    ensures CallRun(ops + [last], waitMask, start, timeOut)
  {
    var all := ops + [last];
    forall i: nat | i < |all| ensures InPlace(all, i, waitMask, start, timeOut) {
      if i < |ops| { assert InPlace(ops, i, waitMask, start, timeOut); }
    }
  }

  /** One turn of the loop: a wait, its answer if it finished, and an attempt if it succeeded. */
  lemma WaitAppended(ops: seq<Op>, waited: seq<Op>, tail: seq<Op>, waitMask: Bits, start: int, timeOut: int)
    requires CallRun(ops, waitMask, start, timeOut) && AtLoopTop(ops)
    requires WaitRun(waited, waitMask) && SleepsFrom(waited, start, timeOut)
    requires |tail| <= 2 && (tail != [] ==>
      tail[0].Answered? && if timeOut == 0 then tail[0].timeout == 0 else 0 < tail[0].timeout <= timeOut)
    requires if |tail| == 2 then tail[0].status.NoError? && tail[1].Tried? && HandsBack(waited, tail[0].efState)
             else NothingFound(waited) && (|tail| == 1 ==> tail[0].status == Error(ETIMEDOUT))
    ensures CallRun(ops + waited + tail, waitMask, start, timeOut)
  {
    var all, at := ops + waited + tail, |ops| + |waited|;
    forall i: nat | i < |all| ensures InPlace(all, i, waitMask, start, timeOut) {
      if i < |ops| {
        assert InPlace(ops, i, waitMask, start, timeOut);
      } else if i < at {
        assert all[i] == waited[i - |ops|];
        if all[i].Slept? { assert SleepsAfterTake(waited, i - |ops|); }
        if i + 1 < at && |tail| == 2 { assert waited[i - |ops|] == Front(waited)[i - |ops|]; }
      }
    }
  }
}
