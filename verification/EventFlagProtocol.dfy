/**
 * Any number of threads calling EventFlag::wake and EventFlag::wait on one shared word, interleaved at every atomic
 * operation and futex call.  futex wait compares and goes to sleep in one step; futex wake wakes every sleeper whose
 * mask intersects.
 */
module EventFlagProtocol {
  import opened Common
  import opened FutexWord

  datatype Status = NoError | BadValue | TimedOut | Again | Interrupted

  datatype Pc =
    | Idle
    | NeedsWake(mask: Bits)                              // wake: new bits raised, futex wake still to be issued
    | Waiting(mask: Bits, retry: bool)                   // wait: about to do the first atomic_fetch_and
    | Futex(mask: Bits, retry: bool, expected: Bits)     // about to call futex wait
    | Asleep(mask: Bits, retry: bool)
    | Woken(mask: Bits, retry: bool)                     // futex wait returned 0; second atomic_fetch_and to come

  /**
   * Raise records the 0 to 1 transitions made by one wake, Return what one wait handed back; mask is the one that the
   * thread used on the word.
   */
  datatype Event =
    | Raise(thread: nat, mask: Bits, bits: Bits)
    | Return(thread: nat, mask: Bits, retry: bool, status: Status, efState: Bits)

  datatype State = State(word: Bits, threads: seq<Pc>, log: seq<Event>) {
    function Set(i: nat, pc: Pc): State
      requires i < |threads|
    {
      this.(threads := threads[i := pc])
    }

    /** Thread i leaves wait; the retry loop takes Again and Interrupted back to the start instead. */
    function Leave(i: nat, mask: Bits, retry: bool, status: Status, efState: Bits): State
      requires i < |threads|
    {
      if retry && (status.Again? || status.Interrupted?) then Set(i, Waiting(mask, retry))
      else Set(i, Idle).(log := log + [Return(i, mask, retry, status, efState)])
    }
  }

  datatype Step =
    | CallWake(i: nat, mask: Bits)
    | FutexWake(i: nat)
    | CallWait(i: nat, mask: Bits, retry: bool)
    | FirstTake(i: nat)
    | FutexWait(i: nat)
    | SecondTake(i: nat)
    | Expire(i: nat)          // the deadline passes, in the kernel or at the top of the retry loop
    | Signal(i: nat)          // the kernel returns EINTR
    | Spurious(i: nat)        // the kernel returns 0 without a wake

  predicate Enabled(s: State, step: Step) {
    && step.i < |s.threads|
    && var pc := s.threads[step.i];
       match step
       case CallWake(_, _) => pc.Idle?
       case FutexWake(_) => pc.NeedsWake?
       case CallWait(_, _, _) => pc.Idle?
       case FirstTake(_) => pc.Waiting?
       case FutexWait(_) => pc.Futex?
       case SecondTake(_) => pc.Woken?
       case Expire(_) => pc.Asleep? || (pc.Waiting? && pc.retry)
       case Signal(_) => pc.Asleep?
       case Spurious(_) => pc.Asleep?
  }

  function Wakes(mask: Bits, pc: Pc): bool { pc.Asleep? && pc.mask * mask != {} }

  function Apply(s: State, step: Step): State
    requires Enabled(s, step)
  {
    var i, pc := step.i, s.threads[step.i];
    match step
    case CallWake(_, mask) =>
      if mask == {} then s
      else
        var added := NewBits(s.word, mask);
        var raised := s.(word := Raised(s.word, mask), log := s.log + [Raise(i, mask, added)]);
        if added != {} then raised.Set(i, NeedsWake(mask)) else raised
    case FutexWake(_) =>
      var woken := seq(|s.threads|, j requires 0 <= j < |s.threads| =>
        if Wakes(pc.mask, s.threads[j]) then Woken(s.threads[j].mask, s.threads[j].retry) else s.threads[j]);
      s.(threads := woken[i := Idle])
    case CallWait(_, mask, retry) =>
      if mask == {} then s.Leave(i, mask, retry, BadValue, {}) else s.Set(i, Waiting(mask, retry))
    case FirstTake(_) =>
      var bits, rest := Taken(s.word, pc.mask), Cleared(s.word, pc.mask);
      if bits != {} then s.(word := rest).Leave(i, pc.mask, pc.retry, NoError, bits)
      else s.(word := rest).Set(i, Futex(pc.mask, pc.retry, rest))
    case FutexWait(_) =>
      if s.word == pc.expected then s.Set(i, Asleep(pc.mask, pc.retry))
      else s.Leave(i, pc.mask, pc.retry, Again, {})
    case SecondTake(_) =>
      var bits := Taken(s.word, pc.mask);
      s.(word := Cleared(s.word, pc.mask))
       .Leave(i, pc.mask, pc.retry, if bits != {} then NoError else Interrupted, bits)
    case Expire(_) => s.Leave(i, pc.mask, pc.retry, TimedOut, {})
    case Signal(_) => s.Leave(i, pc.mask, pc.retry, Interrupted, {})
    case Spurious(_) => s.Set(i, Woken(pc.mask, pc.retry))
  }

  predicate Initial(s: State) {
    s.log == [] && forall i :: 0 <= i < |s.threads| ==> s.threads[i].Idle?
  }

  /** The state after a schedule; a schedule is legal when each of its steps is enabled in turn. */
  ghost predicate Legal(s: State, schedule: seq<Step>)
    decreases |schedule|, 0
  {
    schedule == [] || (Legal(s, Front(schedule)) && Enabled(After(s, Front(schedule)), Last(schedule)))
  }

  ghost function After(s: State, schedule: seq<Step>): State
    requires Legal(s, schedule)
    decreases |schedule|, 1
  {
    if schedule == [] then s else Apply(After(s, Front(schedule)), Last(schedule))
  }

  // ------------------------------------------------------------------ no lost wake-up

  ghost predicate WakePending(s: State, mask: Bits) {
    exists j :: 0 <= j < |s.threads| && s.threads[j].NeedsWake? && s.threads[j].mask * mask != {}
  }

  ghost predicate SleeperSafe(s: State, i: nat)
    requires i < |s.threads|
  {
    s.threads[i].Asleep? && s.word * s.threads[i].mask != {} ==> WakePending(s, s.threads[i].mask)
  }

  /** Before it sleeps, a waiter expects a word without its own bits. */
  predicate WaiterSafe(pc: Pc) { pc.Futex? ==> pc.expected * pc.mask == {} }

  ghost predicate Inv(s: State) {
    forall i :: 0 <= i < |s.threads| ==> SleeperSafe(s, i) && WaiterSafe(s.threads[i])
  }

  lemma PendingKept(s: State, s': State, mask: Bits, i: nat)
    requires |s'.threads| == |s.threads| && i < |s.threads|
    requires forall j :: 0 <= j < |s.threads| && j != i && s.threads[j].NeedsWake? ==> s'.threads[j] == s.threads[j]
    requires s.threads[i].NeedsWake? && s.threads[i].mask * mask != {} ==> s'.threads[i] == s.threads[i]
    requires WakePending(s, mask)
    ensures WakePending(s', mask)
  {
    var j :| 0 <= j < |s.threads| && s.threads[j].NeedsWake? && s.threads[j].mask * mask != {};
    assert s'.threads[j] == s.threads[j];
  }

  lemma ApplyKeepsInv(s: State, step: Step)
    requires Inv(s) && Enabled(s, step)
    ensures Inv(Apply(s, step))
  {
    var s' := Apply(s, step);
    forall k | 0 <= k < |s'.threads| ensures SleeperSafe(s', k) && WaiterSafe(s'.threads[k]) {
      assert SleeperSafe(s, k) && WaiterSafe(s.threads[k]);
      if s'.threads[k].Asleep? && s'.word * s'.threads[k].mask != {} {
        var mask := s'.threads[k].mask;
        if step.CallWake? && s.word * mask == {} {
          assert s'.threads[step.i] == NeedsWake(step.mask);
        } else {
          assert s.word * mask != {} by {
            var b :| b in s'.word * mask;
            if !step.CallWake? { assert b in s.word * mask; }
          }
          PendingKept(s, s', mask, step.i);
        }
      }
    }
  }

  lemma {:induction false} ReachableInv(s: State, schedule: seq<Step>)
    requires Initial(s) && Legal(s, schedule)
    ensures Inv(After(s, schedule)) && |After(s, schedule).threads| == |s.threads|
  {
    if schedule != [] {
      ReachableInv(s, Front(schedule));
      ApplyKeepsInv(After(s, Front(schedule)), Last(schedule));
    }
  }

  /**
   * In every reachable state, a thread asleep on a mask either has none of its bits set, or some waker whose mask
   * intersects has raised bits and has not issued its futex wake yet.
   */
  lemma NoLostWakeup(s: State, schedule: seq<Step>, i: nat)
    requires Initial(s) && Legal(s, schedule) && i < |s.threads|
    ensures var end := After(s, schedule);
      i < |end.threads| &&
      (end.threads[i].Asleep? ==> end.word * end.threads[i].mask == {} || WakePending(end, end.threads[i].mask))
  {
    ReachableInv(s, schedule);
    assert SleeperSafe(After(s, schedule), i);
  }

  // ------------------------------------------------------------------ conservation of bits

  function Holds(b: Bit, bits: Bits): nat { if b in bits then 1 else 0 }

  function RaisedBy(e: Event, b: Bit): nat { if e.Raise? then Holds(b, e.bits) else 0 }

  function TakenBy(e: Event, b: Bit): nat { if e.Return? && e.status.NoError? then Holds(b, e.efState) else 0 }

  ghost function TimesRaised(log: seq<Event>, b: Bit): nat {
    if log == [] then 0 else TimesRaised(Front(log), b) + RaisedBy(Last(log), b)
  }

  ghost function TimesTaken(log: seq<Event>, b: Bit): nat {
    if log == [] then 0 else TimesTaken(Front(log), b) + TakenBy(Last(log), b)
  }

  lemma CountAppend(log: seq<Event>, e: Event, b: Bit)
    ensures TimesRaised(log + [e], b) == TimesRaised(log, b) + RaisedBy(e, b)
    ensures TimesTaken(log + [e], b) == TimesTaken(log, b) + TakenBy(e, b)
  {
    assert Front(log + [e]) == log;
  }

  /** One atomic take or raise moves a bit between the word and the log. */
  lemma TakeConserves(word: Bits, mask: Bits, b: Bit)
    ensures Holds(b, word) == Holds(b, Cleared(word, mask)) + Holds(b, Taken(word, mask))
    ensures Holds(b, word) + Holds(b, NewBits(word, mask)) == Holds(b, Raised(word, mask))
  {
  }

  /** What the step did to bit b of the word, it recorded in the log. */
  ghost predicate Conserved(s: State, s': State, b: Bit) {
    Holds(b, s.word) + TimesRaised(s'.log, b) + TimesTaken(s.log, b)
    == Holds(b, s'.word) + TimesTaken(s'.log, b) + TimesRaised(s.log, b)
  }

  lemma RaiseLogged(s: State, s': State, i: nat, mask: Bits, b: Bit)
    requires s'.word == Raised(s.word, mask) && s'.log == s.log + [Raise(i, mask, NewBits(s.word, mask))]
    ensures Conserved(s, s', b)
  {
    TakeConserves(s.word, mask, b);
    CountAppend(s.log, Raise(i, mask, NewBits(s.word, mask)), b);
  }

  lemma TakeLogged(s: State, s': State, i: nat, retry: bool, mask: Bits, b: Bit)
    requires s'.word == Cleared(s.word, mask)
    requires s'.log == s.log + [Return(i, mask, retry, NoError, Taken(s.word, mask))]
    ensures Conserved(s, s', b)
  {
    TakeConserves(s.word, mask, b);
    CountAppend(s.log, Return(i, mask, retry, NoError, Taken(s.word, mask)), b);
  }

  lemma NothingTaken(s: State, s': State, i: nat, mask: Bits, retry: bool, status: Status, b: Bit)
    requires !status.NoError?
    requires s'.word == s.word || (Taken(s.word, mask) == {} && s'.word == Cleared(s.word, mask))
    requires s'.log == s.log || s'.log == s.log + [Return(i, mask, retry, status, {})]
    ensures Conserved(s, s', b)
  {
    TakeConserves(s.word, mask, b);
    if s'.log != s.log { CountAppend(s.log, Return(i, mask, retry, status, {}), b); }
  }

  lemma ApplyConserves(s: State, step: Step, b: Bit)
    requires Enabled(s, step)
    ensures Conserved(s, Apply(s, step), b)
  {
    var s', pc := Apply(s, step), s.threads[step.i];
    match step
    case CallWake(i, mask) => if mask != {} { RaiseLogged(s, s', i, mask, b); }
    case FutexWake(_) =>
    case CallWait(i, mask, retry) => NothingTaken(s, s', i, mask, retry, BadValue, b);
    case FirstTake(i) =>
      if Taken(s.word, pc.mask) != {} { TakeLogged(s, s', i, pc.retry, pc.mask, b); }
      else { NothingTaken(s, s', i, pc.mask, pc.retry, TimedOut, b); }
    case FutexWait(i) => NothingTaken(s, s', i, pc.mask, pc.retry, Again, b);
    case SecondTake(i) =>
      if Taken(s.word, pc.mask) != {} { TakeLogged(s, s', i, pc.retry, pc.mask, b); }
      else { NothingTaken(s, s', i, pc.mask, pc.retry, Interrupted, b); }
    case Expire(i) => NothingTaken(s, s', i, pc.mask, pc.retry, TimedOut, b);
    case Signal(i) => NothingTaken(s, s', i, pc.mask, pc.retry, Interrupted, b);
    case Spurious(i) =>
  }

  /**
   * For every bit and every schedule: its initial value plus the number of times a wake set it equals the number of
   * times a wait returned it with NO_ERROR plus its current value.  No timeout, EAGAIN, EINTR or retry loses a bit
   * or delivers it twice.
   */
  lemma {:induction false} BitsConserved(s: State, schedule: seq<Step>, b: Bit)
    requires Initial(s) && Legal(s, schedule)
    ensures var end := After(s, schedule);
      Holds(b, s.word) + TimesRaised(end.log, b) == TimesTaken(end.log, b) + Holds(b, end.word)
  {
    if schedule != [] {
      BitsConserved(s, Front(schedule), b);
      ApplyConserves(After(s, Front(schedule)), Last(schedule), b);
    }
  }

  // ------------------------------------------------------------------ what callers see

  /** The call that thread i is in, or made last. */
  ghost function LastCall(schedule: seq<Step>, i: nat): Option<Step> {
    if schedule == [] then None
    else if (Last(schedule).CallWake? || Last(schedule).CallWait?) && Last(schedule).i == i then Some(Last(schedule))
    else LastCall(Front(schedule), i)
  }

  predicate InWait(pc: Pc) { pc.Waiting? || pc.Futex? || pc.Asleep? || pc.Woken? }

  ghost predicate ServesCall(s: State, schedule: seq<Step>, i: nat)
    requires i < |s.threads|
  {
    var pc := s.threads[i];
    && (InWait(pc) ==> pc.mask != {} && LastCall(schedule, i) == Some(CallWait(i, pc.mask, pc.retry)))
    && (pc.NeedsWake? ==> pc.mask != {} && LastCall(schedule, i) == Some(CallWake(i, pc.mask)))
  }

  /** Through every sleep, wake-up and retry a thread keeps to the mask it was called with. */
  lemma {:induction false} ThreadsServeTheirCalls(s: State, schedule: seq<Step>, i: nat)
    requires Initial(s) && Legal(s, schedule) && i < |s.threads|
    ensures |After(s, schedule).threads| == |s.threads| && ServesCall(After(s, schedule), schedule, i)
  {
    if schedule != [] {
      ReachableInv(s, Front(schedule));
      ThreadsServeTheirCalls(s, Front(schedule), i);
      StepServesCall(After(s, Front(schedule)), Front(schedule), Last(schedule), i);
      assert Front(schedule) + [Last(schedule)] == schedule;
    }
  }

  lemma StepServesCall(s: State, past: seq<Step>, step: Step, i: nat)
    requires Enabled(s, step) && i < |s.threads| && ServesCall(s, past, i)
    ensures |Apply(s, step).threads| == |s.threads| && ServesCall(Apply(s, step), past + [step], i)
  {
    assert Front(past + [step]) == past && Last(past + [step]) == step;
    if i != step.i { WakesExactlyTheMeant(s, step, i); }
  }

  /** What an event says is what its thread did to the word, for the call that it is in. */
  ghost predicate Done(s: State, s': State, e: Event, call: Option<Step>) {
    match e
    case Raise(i, mask, bits) =>
      call == Some(CallWake(i, mask)) && s'.word == s.word + mask && bits == mask - s.word
    case Return(i, mask, retry, status, efState) =>
      && call == Some(CallWait(i, mask, retry))
      && (if status.NoError? then efState == s.word * mask != {} && s'.word == s.word - mask
          else efState == {} && s'.word == s.word)
      && (status.BadValue? <==> mask == {})
  }

  /**
   * A step changes the word only together with an entry of the log that says how, and a thread does not leave wait
   * without one; call is what its thread was called with.
   */
  ghost predicate ChangeLogged(s: State, s': State, step: Step, call: Option<Step>)
    requires step.i < |s.threads|
  {
    && |s'.threads| == |s.threads|
    && if s'.log == s.log then
         s'.word == s.word && (InWait(s.threads[step.i]) || step.CallWait? ==> InWait(s'.threads[step.i]))
       else
         && |s'.log| == |s.log| + 1 && s.log <= s'.log
         && Last(s'.log).thread == step.i && Done(s, s', Last(s'.log), call)
  }

  lemma TakeChangeLogged(s: State, step: Step)
    requires Enabled(s, step) && (step.FirstTake? || step.SecondTake?) && s.threads[step.i].mask != {}
    ensures var pc := s.threads[step.i];
      ChangeLogged(s, Apply(s, step), step, Some(CallWait(step.i, pc.mask, pc.retry)))
  {
    TakeIsExact(s.word, s.threads[step.i].mask);
  }

  lemma CallChangeLogged(s: State, step: Step)
    requires Enabled(s, step) && (step.CallWake? || step.CallWait?)
    ensures ChangeLogged(s, Apply(s, step), step, Some(step))
  {
  }

  lemma OtherChangeLogged(s: State, step: Step, call: Option<Step>)
    requires Enabled(s, step)
    requires !step.FirstTake? && !step.SecondTake? && !step.CallWake? && !step.CallWait?
    requires var pc := s.threads[step.i];
      InWait(pc) ==> pc.mask != {} && call == Some(CallWait(step.i, pc.mask, pc.retry))
    ensures ChangeLogged(s, Apply(s, step), step, call)
  {
  }

  lemma StepChangeLogged(s: State, past: seq<Step>, step: Step)
    requires Enabled(s, step) && ServesCall(s, past, step.i)
    ensures ChangeLogged(s, Apply(s, step), step, LastCall(past + [step], step.i))
  {
    assert Front(past + [step]) == past && Last(past + [step]) == step;
    if step.FirstTake? || step.SecondTake? {
      TakeChangeLogged(s, step);
    } else if step.CallWake? || step.CallWait? {
      CallChangeLogged(s, step);
    } else {
      OtherChangeLogged(s, step, LastCall(past, step.i));
    }
  }

  /**
   * A step changes the word only together with an entry of the log that says how: a wake raises its whole mask, and a
   * wait hands back, and clears, exactly the bits of its own mask that were set, or nothing.  A thread does not leave
   * wait without such an entry.
   */
  lemma EveryChangeIsLogged(s: State, schedule: seq<Step>, step: Step)
    requires Initial(s) && Legal(s, schedule) && Enabled(After(s, schedule), step)
    ensures ChangeLogged(After(s, schedule), Apply(After(s, schedule), step), step, LastCall(schedule + [step], step.i))
  {
    ReachableInv(s, schedule);
    ThreadsServeTheirCalls(s, schedule, step.i);
    StepChangeLogged(After(s, schedule), schedule, step);
  }

  lemma TakeIsExact(word: Bits, mask: Bits)
    ensures Cleared(word, mask) + Taken(word, mask) == word && Cleared(word, mask) !! mask
    ensures Taken(word, mask) == {} ==> Cleared(word, mask) == word
  {
    assert Taken(word, mask) == {} ==> forall b :: b in word ==> b in Taken(word, mask) || b in Cleared(word, mask);
  }

  /** Whatever a thread inside wait does, bits outside its mask stay as they are, and none is raised. */
  lemma WaiterLeavesOtherBits(s: State, step: Step, b: Bit)
    requires Enabled(s, step) && InWait(s.threads[step.i])
    ensures b !in s.threads[step.i].mask ==> (b in Apply(s, step).word <==> b in s.word)
    ensures b in Apply(s, step).word ==> b in s.word
  {
  }

  /**
   * A wait that finds none of its bits goes to sleep exactly if the word is still what its own take left; that is at
   * a moment when none of its bits is set.
   */
  lemma SleepsExactlyIfUnchanged(s: State, schedule: seq<Step>, step: Step)
    requires Initial(s) && Legal(s, schedule) && Enabled(After(s, schedule), step)
    ensures var before, after := After(s, schedule), Apply(After(s, schedule), step);
      && |after.threads| == |before.threads|
      && var pc, pc' := before.threads[step.i], after.threads[step.i];
         && (step.FirstTake? ==>
               if before.word !! pc.mask then pc' == Futex(pc.mask, pc.retry, before.word) else pc'.Idle?)
         && (step.FutexWait? ==>
               if before.word == pc.expected then pc'.Asleep? && before.word !! pc.mask
               else if pc.retry then pc'.Waiting?
               else pc'.Idle? && after.log != [] && Last(after.log).Return? && Last(after.log).status.Again?)
  {
    ReachableInv(s, schedule);
    var before := After(s, schedule);
    var pc := before.threads[step.i];
    assert WaiterSafe(pc);
    if step.FirstTake? {
      TakeIsExact(before.word, pc.mask);
    } else if step.FutexWait? {
      assert forall b :: b in pc.expected && b in pc.mask ==> b in pc.expected * pc.mask;
    }
  }

  /**
   * A wake issues futex wake exactly if it set a new bit, and that wakes exactly the sleepers it is meant for.  No
   * other step moves a thread but its own.
   */
  lemma WakesExactlyTheMeant(s: State, step: Step, j: nat)
    requires Enabled(s, step) && j < |s.threads|
    ensures |Apply(s, step).threads| == |s.threads|
    ensures var pc, pc' := s.threads[j], Apply(s, step).threads[j];
      && (j == step.i && step.CallWake? ==> (pc'.NeedsWake? <==> exists b :: b in step.mask && b !in s.word))
      && (j == step.i && step.FutexWake? ==> pc'.Idle?)
      && (j != step.i ==>
            if step.FutexWake? && pc.Asleep? && (exists b :: b in pc.mask && b in s.threads[step.i].mask)
            then pc' == Woken(pc.mask, pc.retry) else pc' == pc)
  {
    if step.CallWake? {
      assert forall b :: b in NewBits(s.word, step.mask) <==> b in step.mask && b !in s.word;
    }
    if step.FutexWake? && s.threads[j].Asleep? {
      assert forall b :: b in s.threads[j].mask * s.threads[step.i].mask
                         <==> b in s.threads[j].mask && b in s.threads[step.i].mask;
    }
  }

  /** The status a step makes wait return; None if the thread stays in wait. */
  ghost function Answer(s: State, step: Step): Option<Status>
    requires step.i < |s.threads|
  {
    var s' := if Enabled(s, step) then Apply(s, step) else s;
    if |s'.log| > |s.log| && Last(s'.log).Return? then Some(Last(s'.log).status) else None
  }

  /**
   * A take answers the call exactly if it finds a bit; a deadline always answers it with TIMED_OUT, and nothing else
   * does; a signal, a changed word or a wake-up without bits answers it exactly if it does not retry.
   */
  lemma AnswerCauses(s: State, step: Step)
    requires Enabled(s, step) && InWait(s.threads[step.i])
    ensures var pc, answer := s.threads[step.i], Answer(s, step);
      match step
      case FirstTake(_) => answer == if s.word !! pc.mask then None else Some(NoError)
      case SecondTake(_) =>
        answer == if !(s.word !! pc.mask) then Some(NoError) else if pc.retry then None else Some(Interrupted)
      case FutexWait(_) => answer == if s.word == pc.expected || pc.retry then None else Some(Again)
      case Expire(_) => answer == Some(TimedOut)
      case Signal(_) => answer == if pc.retry then None else Some(Interrupted)
      case _ => answer == None
  {
    TakeIsExact(s.word, s.threads[step.i].mask);
  }

  predicate ReturnSound(e: Event) {
    e.Return? ==>
      && e.efState <= e.mask
      && (e.status.NoError? <==> e.efState != {})
      && (e.status.BadValue? <==> e.mask == {})
      && (e.retry ==> !e.status.Again? && !e.status.Interrupted?)
  }

  /**
   * Every wait returns bits of its own mask only, NO_ERROR exactly with a non-zero efState, and, if it retries,
   * neither EAGAIN nor EINTR.
   */
  lemma {:induction false} ReturnsSound(s: State, schedule: seq<Step>, k: nat)
    requires Initial(s) && Legal(s, schedule) && k < |After(s, schedule).log|
    ensures ReturnSound(After(s, schedule).log[k])
  {
    if schedule != [] {
      var mid, step := After(s, Front(schedule)), Last(schedule);
      if k < |mid.log| {
        ReturnsSound(s, Front(schedule), k);
      } else {
        ReachableInv(s, Front(schedule));
        ThreadsServeTheirCalls(s, Front(schedule), step.i);
      }
    }
  }
}
