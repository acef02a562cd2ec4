/** Receive notifications under every interleaving of interrupts, reads, dummy reads, aborts and
    opens. A step is one access to what the calls share: the queue under its lock, or one flag. */
module RxRuns {
  import opened LittleEndian
  import opened RxQueue

  datatype Kind = Read | Dummy

  /** Why wait_event_interruptible_timeout returned: its condition, its time, or a signal. */
  datatype Why = Condition | Elapsed | Interrupted

  /** How a call ended: with an id, with an id whose data could not be copied to the caller, with
      -ERESTARTSYS, or with -EFAULT because another call had been quicker. */
  datatype Result = Id(id: Word) | Uncopied(id: Word) | Restart | Beaten

  /** Where a thread is. A reader sleeps, is roused, has seen the abort flag or may take an id, and
      has taken one; an abort has set its flag, or has decided to take the lock. */
  datatype Thread =
    | Away
    | Waiting(kind: Kind)
    | Roused(kind: Kind, why: Why)
    | Aborted
    | MayTake(kind: Kind)
    | InHand(id: Word)
    | Flagged
    | Locking

  /** The queue's lock; everyone but an abort holds it for one step only. */
  datatype Lock = Free | HeldBy(thread: nat)

  /** How an id left the queue. */
  datatype Exit = Delivered(reader: nat, id: Word) | Flushed(id: Word)

  /** Shared state, the threads, and the history: ids accepted, ids that left, ids lost, and how each
      call ended. */
  datatype State = State(fifo: seq<Byte>, lock: Lock, isAbort: bool, isReadAbort: bool, files: nat, threads: map<nat, Thread>,
                         accepted: seq<Word>, left: seq<Exit>, lost: seq<Word>, returned: seq<(nat, Result)>)

  datatype Step =
    | Interrupt(id: Word)
    | Call(reader: nat, kind: Kind)
    | Wake(reader: nat, why: Why)
    | Look(reader: nat)
    | UseUpAbort(reader: nat)
    | Take(reader: nat)
    | Finish(reader: nat, copied: bool)
    | SetReadAbort
    | Abort(thread: nat)
    | LookAtReadAbort(thread: nat)
    | Acquire(thread: nat)
    | SkipByte
    | Unlock
    | Open
    | Release

  function ThreadOf(s: State, thread: nat): Thread { if thread in s.threads then s.threads[thread] else Away }

  function Go(s: State, thread: nat, t: Thread): State { s.(threads := s.threads[thread := t]) }

  function Return(s: State, reader: nat, result: Result): State {
    Go(s, reader, Away).(returned := s.returned + [(reader, result)])
  }

  /** kfifo_out_locked: the bytes taken are read as one id. A dummy read returns it; so does a read
      of an id that is negative as an s32, and any other read goes on to copy its data. */
  function TakeOut(s: State, reader: nat, kind: Kind, otherwise: State): State {
    if Ready(s.fifo) == 0 then otherwise
    else
      var id := Overlaid(s.fifo, 0);
      var out := s.(fifo := Rest(s.fifo), left := s.left + [Delivered(reader, id)]);
      if kind == Read && id < 0x8000_0000 then Go(out, reader, InHand(id)) else Return(out, reader, Id(id))
  }

  /** The condition a reader waits for. The queue's length is looked at without the lock. */
  predicate Met(s: State, kind: Kind) { (kind == Read && s.isAbort) || s.fifo != [] }

  /** What a roused reader does: an abort ends a read before anything else, and a read whose time is
      up waits again. */
  function Looked(s: State, reader: nat, kind: Kind, why: Why): State {
    if kind == Read && s.isAbort then Go(s, reader, Aborted)
    else match why
      case Condition => Go(s, reader, MayTake(kind))
      case Interrupted => Return(s, reader, Restart)
      case Elapsed => if kind == Read then Go(s, reader, Waiting(Read)) else Return(s, reader, Restart)
  }

  function FlushedAll(ids: seq<Word>): (r: seq<Exit>)
    ensures |r| == |ids|
  {
    seq(|ids|, i requires 0 <= i < |ids| => Flushed(ids[i]))
  }

  /** One atomic step; a step that is not possible, or would need the lock while an abort holds it,
      changes nothing. */
  function Next(s: State, step: Step): State {
    match step
    case Interrupt(id) =>
      if s.lock != Free then s
      else if Room(s.fifo) == 0 then s.(lost := s.lost + [id])
      else s.(fifo := Put(s.fifo, id), accepted := s.accepted + [id])
    case Call(reader, kind) =>
      if s.lock != Free || ThreadOf(s, reader) != Away then s
      else TakeOut(s, reader, kind, Go(s, reader, Waiting(kind)))
    case Wake(reader, why) =>
      var t := ThreadOf(s, reader);
      if t.Waiting? && (why == Condition <==> Met(s, t.kind)) then Go(s, reader, Roused(t.kind, why)) else s
    case Look(reader) =>
      var t := ThreadOf(s, reader);
      if t.Roused? then Looked(s, reader, t.kind, t.why) else s
    case UseUpAbort(reader) =>
      if ThreadOf(s, reader) == Aborted then Return(s, reader, Restart).(isAbort := false) else s
    case Take(reader) =>
      var t := ThreadOf(s, reader);
      if s.lock != Free || !t.MayTake? then s else TakeOut(s, reader, t.kind, Return(s, reader, Beaten))
    case Finish(reader, copied) =>
      var t := ThreadOf(s, reader);
      if t.InHand? then Return(s, reader, if copied then Id(t.id) else Uncopied(t.id)) else s
    case SetReadAbort => s.(isReadAbort := true)
    case Abort(thread) =>
      if ThreadOf(s, thread) == Away then Go(s, thread, Flagged).(isAbort := true) else s
    case LookAtReadAbort(thread) =>
      if ThreadOf(s, thread) == Flagged then Go(s, thread, if s.isReadAbort then Away else Locking) else s
    case Acquire(thread) =>
      if s.lock == Free && ThreadOf(s, thread) == Locking then
        s.(lock := HeldBy(thread), left := s.left + FlushedAll(if |s.fifo| % 4 == 0 then Ids(s.fifo) else []))
      else s
    case SkipByte =>
      if s.lock != Free && s.fifo != [] then s.(fifo := s.fifo[1..]) else s
    case Unlock =>
      if s.lock != Free && s.fifo == [] then Go(s, s.lock.thread, Away).(lock := Free) else s
    case Open =>
      if s.files == 0 then s.(files := 1, isAbort := false, isReadAbort := false) else s.(files := s.files + 1)
    case Release => if s.files > 0 then s.(files := s.files - 1) else s
  }

  const START := State([], Free, false, false, 0, map[], [], [], [], [])

  function Run(steps: seq<Step>): State
    decreases |steps|
  {
    if steps == [] then START else Next(Run(steps[..|steps| - 1]), steps[|steps| - 1])
  }

  // ----- the history of one reader

  function ExitIds(left: seq<Exit>): (ids: seq<Word>)
    ensures |ids| == |left|
  {
    seq(|left|, i requires 0 <= i < |left| => left[i].id)
  }

  /** The ids delivered to a reader. */
  function DeliveredTo(left: seq<Exit>, reader: nat): seq<Word> {
    if left == [] then []
    else
      var before, last := DeliveredTo(left[..|left| - 1], reader), left[|left| - 1];
      if last.Delivered? && last.reader == reader then before + [last.id] else before
  }

  /** The ids with which a reader's calls ended, copied or not. */
  function EndedWith(returned: seq<(nat, Result)>, reader: nat): seq<Word> {
    if returned == [] then []
    else
      var before, last := EndedWith(returned[..|returned| - 1], reader), returned[|returned| - 1];
      if last.0 == reader && (last.1.Id? || last.1.Uncopied?) then before + [last.1.id] else before
  }

  /** The ids that a reader got. */
  function Got(returned: seq<(nat, Result)>, reader: nat): seq<Word> {
    if returned == [] then []
    else
      var before, last := Got(returned[..|returned| - 1], reader), returned[|returned| - 1];
      if last.0 == reader && last.1.Id? then before + [last.1.id] else before
  }

  /** How many copies failed for a reader. */
  function FailedCopies(returned: seq<(nat, Result)>, reader: nat): nat {
    if returned == [] then 0
    else
      var before, last := FailedCopies(returned[..|returned| - 1], reader), returned[|returned| - 1];
      if last.0 == reader && last.1.Uncopied? then before + 1 else before
  }

  function Held(t: Thread): seq<Word> { if t.InHand? then [t.id] else [] }

  predicate OwnHistory(s: State, reader: nat) {
    DeliveredTo(s.left, reader) == EndedWith(s.returned, reader) + Held(ThreadOf(s, reader))
  }

  /** Outside an abort the queue holds whole ids; the ids accepted are those that left and those
      queued, in order of arrival; every id delivered ended its reader's call or is in its hand. */
  ghost predicate Sound(s: State) {
    && |s.fifo| <= CAPACITY
    && (s.lock == Free ==> |s.fifo| % 4 == 0 && s.accepted == ExitIds(s.left) + Ids(s.fifo))
    && (s.lock != Free ==> s.accepted == ExitIds(s.left) && ThreadOf(s, s.lock.thread) == Locking)
    && forall r: nat :: OwnHistory(s, r)
  }

  lemma ExitIdsAppend(left: seq<Exit>, more: seq<Exit>)
    ensures ExitIds(left + more) == ExitIds(left) + ExitIds(more)
  {
  }

  lemma {:induction false} DeliveredIgnoresFlushed(left: seq<Exit>, ids: seq<Word>, reader: nat)
    ensures DeliveredTo(left + FlushedAll(ids), reader) == DeliveredTo(left, reader)
    decreases |ids|
  {
    if ids == [] {
      assert left + FlushedAll(ids) == left;
    } else {
      var all := left + FlushedAll(ids);
      assert all[..|all| - 1] == left + FlushedAll(ids[..|ids| - 1]);
      assert all[|all| - 1] == Flushed(ids[|ids| - 1]);
      DeliveredIgnoresFlushed(left, ids[..|ids| - 1], reader);
    }
  }

  lemma DeliveredAppend(left: seq<Exit>, to: nat, id: Word, reader: nat)
    ensures DeliveredTo(left + [Delivered(to, id)], reader) == DeliveredTo(left, reader) + (if to == reader then [id] else [])
  {
    assert (left + [Delivered(to, id)])[..|left|] == left;
  }

  lemma EndedAppend(returned: seq<(nat, Result)>, who: nat, result: Result, reader: nat)
    ensures EndedWith(returned + [(who, result)], reader) ==
      EndedWith(returned, reader) + (if who == reader && (result.Id? || result.Uncopied?) then [result.id] else [])
  {
    assert (returned + [(who, result)])[..|returned|] == returned;
  }

  // ----- every step keeps it

  /** A thread that neither had nor gets an id may go anywhere; only the lock's holder stays. */
  lemma GoKeeps(s: State, thread: nat, t: Thread)
    requires Sound(s) && !ThreadOf(s, thread).InHand? && !t.InHand? && (s.lock != Free ==> s.lock.thread != thread)
    ensures Sound(Go(s, thread, t))
  {
    hide Ids, ExitIds, DeliveredTo, EndedWith;
    forall r: nat ensures OwnHistory(Go(s, thread, t), r) {
      assert OwnHistory(s, r);
    }
  }

  lemma ReturnKeeps(s: State, reader: nat, result: Result)
    requires Sound(s) && (s.lock != Free ==> s.lock.thread != reader)
    requires (if result.Id? || result.Uncopied? then [result.id] else []) == Held(ThreadOf(s, reader))
    ensures Sound(Return(s, reader, result))
  {
    hide Ids, ExitIds, DeliveredTo, EndedWith;
    forall r: nat ensures OwnHistory(Return(s, reader, result), r) {
      assert OwnHistory(s, r);
      EndedAppend(s.returned, reader, result, r);
    }
  }

  lemma InterruptKeeps(s: State, id: Word)
    requires Sound(s)
    ensures Sound(Next(s, Interrupt(id)))
  {
    hide Put, Ids, ExitIds, DeliveredTo, EndedWith;
    var n := Next(s, Interrupt(id));
    if s.lock == Free {
      PutWhole(s.fifo, id);
      assert ExitIds(s.left) + (Ids(s.fifo) + [id]) == ExitIds(s.left) + Ids(s.fifo) + [id];
    }
    forall r: nat ensures OwnHistory(n, r) {
      assert OwnHistory(s, r);
    }
  }

  /** Taking an id out moves it into the reader's hand. */
  function Taken(s: State, reader: nat): State {
    Go(s, reader, InHand(Overlaid(s.fifo, 0))).(fifo := Rest(s.fifo), left := s.left + [Delivered(reader, Overlaid(s.fifo, 0))])
  }

  lemma TakenKeeps(s: State, reader: nat)
    requires Sound(s) && s.lock == Free && Ready(s.fifo) != 0 && !ThreadOf(s, reader).InHand?
    ensures Sound(Taken(s, reader))
  {
    hide Overlaid, Ids, ExitIds, DeliveredTo, EndedWith;
    var id := Overlaid(s.fifo, 0);
    TakeWhole(s.fifo, 0);
    ExitIdsAppend(s.left, [Delivered(reader, id)]);
    OneExit(reader, id);
    assert ExitIds(s.left) + ([id] + Ids(Rest(s.fifo))) == ExitIds(s.left) + [id] + Ids(Rest(s.fifo));
    forall r: nat ensures OwnHistory(Taken(s, reader), r) {
      assert OwnHistory(s, r);
      DeliveredAppend(s.left, reader, id, r);
    }
  }

  lemma OneExit(reader: nat, id: Word)
    ensures ExitIds([Delivered(reader, id)]) == [id]
  {
  }

  lemma TakeOutKeeps(s: State, reader: nat, kind: Kind, otherwise: State)
    requires Sound(s) && s.lock == Free && Sound(otherwise) && !ThreadOf(s, reader).InHand?
    ensures Sound(TakeOut(s, reader, kind, otherwise))
  {
    hide Overlaid, Sound;
    if Ready(s.fifo) != 0 {
      var id := Overlaid(s.fifo, 0);
      TakenKeeps(s, reader);
      ReturnKeeps(Taken(s, reader), reader, Id(id));
      ReturnForgets(s.(fifo := Rest(s.fifo), left := s.left + [Delivered(reader, id)]), reader, InHand(id), Id(id));
    }
  }

  lemma ReturnForgets(s: State, reader: nat, t: Thread, result: Result)
    ensures Return(Go(s, reader, t), reader, result) == Return(s, reader, result)
  {
    assert s.threads[reader := t][reader := Away] == s.threads[reader := Away];
  }

  lemma AcquireKeeps(s: State, thread: nat)
    requires Sound(s)
    ensures Sound(Next(s, Acquire(thread)))
  {
    hide Ids, DeliveredTo, EndedWith, ExitIds, FlushedAll;
    var n := Next(s, Acquire(thread));
    if s.lock == Free && ThreadOf(s, thread) == Locking {
      var ids := Ids(s.fifo);
      ExitIdsAppend(s.left, FlushedAll(ids));
      FlushedIds(ids);
      forall r: nat ensures OwnHistory(n, r) {
        assert OwnHistory(s, r);
        DeliveredIgnoresFlushed(s.left, ids, r);
      }
    }
  }

  lemma FlushedIds(ids: seq<Word>)
    ensures ExitIds(FlushedAll(ids)) == ids
  {
  }

  lemma UnlockKeeps(s: State)
    requires Sound(s)
    ensures Sound(Next(s, Unlock)) && Sound(Next(s, SkipByte))
  {
    hide DeliveredTo, EndedWith, ExitIds;
    assert Ids([]) == [];
    forall r: nat ensures OwnHistory(Next(s, Unlock), r) && OwnHistory(Next(s, SkipByte), r) {
      assert OwnHistory(s, r);
    }
  }

  /** The flags and the count of open files are no part of it. */
  lemma FlagsKeep(s: State, isAbort: bool, isReadAbort: bool, files: nat)
    requires Sound(s)
    ensures Sound(s.(isAbort := isAbort, isReadAbort := isReadAbort, files := files))
  {
    hide Ids, DeliveredTo, EndedWith, ExitIds;
    forall r: nat ensures OwnHistory(s.(isAbort := isAbort, isReadAbort := isReadAbort, files := files), r) {
      assert OwnHistory(s, r);
    }
  }

  lemma ReaderStepKeeps(s: State, step: Step)
    requires Sound(s) && (step.Call? || step.Wake? || step.Look? || step.UseUpAbort? || step.Take? || step.Finish?)
    ensures Sound(Next(s, step))
  {
    var t := ThreadOf(s, step.reader);
    HolderLocks(s, step.reader);
    hide Sound, TakeOut, Go, Return, Met;
    match step
    case Call(reader, kind) =>
      if s.lock == Free && t == Away {
        GoKeeps(s, reader, Waiting(kind));
        TakeOutKeeps(s, reader, kind, Go(s, reader, Waiting(kind)));
      }
    case Wake(reader, why) => if t.Waiting? { GoKeeps(s, reader, Roused(t.kind, why)); }
    case Look(reader) =>
      if t.Roused? {
        GoKeeps(s, reader, Aborted);
        GoKeeps(s, reader, MayTake(t.kind));
        GoKeeps(s, reader, Waiting(Read));
        ReturnKeeps(s, reader, Restart);
      }
    case UseUpAbort(reader) =>
      if t == Aborted {
        var n := Return(s, reader, Restart);
        ReturnKeeps(s, reader, Restart);
        FlagsKeep(n, false, n.isReadAbort, n.files);
      }
    case Take(reader) =>
      if s.lock == Free && t.MayTake? {
        ReturnKeeps(s, reader, Beaten);
        TakeOutKeeps(s, reader, t.kind, Return(s, reader, Beaten));
      }
    case Finish(reader, copied) =>
      if t.InHand? { ReturnKeeps(s, reader, if copied then Id(t.id) else Uncopied(t.id)); }
  }

  lemma HolderLocks(s: State, thread: nat)
    requires Sound(s)
    ensures s.lock != Free && s.lock.thread == thread ==> ThreadOf(s, thread) == Locking
  {
  }

  lemma StepKeeps(s: State, step: Step)
    requires Sound(s)
    ensures Sound(Next(s, step))
  {
    if step.Abort? || step.LookAtReadAbort? {
      HolderLocks(s, step.thread);
    }
    hide Sound, TakeOut, Go, Put, FlushedAll, Room, Looked, Met, Return;
    match step
    case Interrupt(id) => InterruptKeeps(s, id);
    case SetReadAbort => FlagsKeep(s, s.isAbort, true, s.files);
    case Abort(thread) =>
      if ThreadOf(s, thread) == Away {
        GoKeeps(s, thread, Flagged);
        var n := Go(s, thread, Flagged);
        FlagsKeep(n, true, n.isReadAbort, n.files);
      }
    case LookAtReadAbort(thread) =>
      if ThreadOf(s, thread) == Flagged { GoKeeps(s, thread, if s.isReadAbort then Away else Locking); }
    case Acquire(thread) => AcquireKeeps(s, thread);
    case SkipByte => UnlockKeeps(s);
    case Unlock => UnlockKeeps(s);
    case Open => FlagsKeep(s, s.isAbort && s.files != 0, s.isReadAbort && s.files != 0, s.files + 1);
    case Release => if s.files > 0 { FlagsKeep(s, s.isAbort, s.isReadAbort, s.files - 1); }
    case _ => ReaderStepKeeps(s, step);
  }

  /** After every interleaving: outside an abort's critical section the queue holds whole ids; ids
      are delivered or flushed in their order of arrival and none is torn, repeated or forgotten;
      what is delivered to a reader is, in order, what its calls end with. */
  lemma {:induction false} EveryRunIsSound(steps: seq<Step>)
    ensures Sound(Run(steps))
    decreases |steps|
  {
    hide Sound, Next;
    if steps == [] {
      StartIsSound();
    } else {
      EveryRunIsSound(steps[..|steps| - 1]);
      StepKeeps(Run(steps[..|steps| - 1]), steps[|steps| - 1]);
    }
  }

  lemma StartIsSound()
    ensures Sound(START)
  {
  }

  lemma {:induction false} EndedSplit(returned: seq<(nat, Result)>, reader: nat)
    ensures |EndedWith(returned, reader)| == |Got(returned, reader)| + FailedCopies(returned, reader)
    ensures FailedCopies(returned, reader) == 0 ==> Got(returned, reader) == EndedWith(returned, reader)
  {
    if returned != [] {
      EndedSplit(returned[..|returned| - 1], reader);
    }
  }

  /** A reader gets exactly the ids delivered to it, in order, if and only if none of its copies has
      failed and none is under way; every failed copy costs one id. */
  lemma DeliveredIsGot(steps: seq<Step>, reader: nat)
    ensures var s := Run(steps);
      && |DeliveredTo(s.left, reader)| == |Got(s.returned, reader)| + FailedCopies(s.returned, reader) + |Held(ThreadOf(s, reader))|
      && (Got(s.returned, reader) == DeliveredTo(s.left, reader) <==>
          FailedCopies(s.returned, reader) == 0 && !ThreadOf(s, reader).InHand?)
  {
    hide DeliveredTo, EndedWith, Got, FailedCopies, Run;
    var s := Run(steps);
    EveryRunIsSound(steps);
    assert OwnHistory(s, reader);
    EndedSplit(s.returned, reader);
  }

  /** In every run an interrupt's id is lost exactly when it finds the queue full, with 16 ids, and
      is queued whole otherwise. */
  lemma {:induction false} LostOnlyWhenFull(steps: seq<Step>, id: Word)
    requires Run(steps).lock == Free
    ensures var s, r := Run(steps), Run(steps + [Interrupt(id)]);
      && (|s.fifo| == CAPACITY ==> r.lost == s.lost + [id] && r.accepted == s.accepted)
      && (|s.fifo| != CAPACITY ==> r.lost == s.lost && r.accepted == s.accepted + [id] && r.fifo == s.fifo + Le(id))
  {
    hide Next, Sound, Le;
    EveryRunIsSound(steps);
    InterruptOutcome(Run(steps), id);
    assert (steps + [Interrupt(id)])[..|steps|] == steps;
  }

  lemma InterruptOutcome(s: State, id: Word)
    requires Sound(s) && s.lock == Free
    ensures var r := Next(s, Interrupt(id));
      && (|s.fifo| == CAPACITY ==> r.lost == s.lost + [id] && r.accepted == s.accepted)
      && (|s.fifo| != CAPACITY ==> r.lost == s.lost && r.accepted == s.accepted + [id] && r.fifo == s.fifo + Le(id))
  {
    hide OwnHistory, ExitIds, Ids, Le;
    assert |s.fifo| % 4 == 0;
    assert |s.fifo| != CAPACITY ==> Room(s.fifo) == 4 && Le(id)[..4] == Le(id);
  }

  // ----- two runs

  /** Steps from a state on. */
  function After(s: State, steps: seq<Step>): State
    decreases |steps|
  {
    if steps == [] then s else After(Next(s, steps[0]), steps[1..])
  }

  lemma {:induction false} RunIsAfter(before: seq<Step>, steps: seq<Step>)
    ensures Run(before + steps) == After(Run(before), steps)
    decreases |steps|
  {
    hide Next;
    if steps == [] {
      assert before + steps == before;
    } else {
      var more := before + [steps[0]];
      assert before + steps == more + steps[1..] && more[..|before|] == before;
      RunIsAfter(more, steps[1..]);
    }
  }

  lemma AfterFour(s: State, a: Step, b: Step, c: Step, d: Step)
    ensures After(s, [a, b, c, d]) == Next(Next(Next(Next(s, a), b), c), d)
  {
    hide Next;
    assert [a, b, c, d][1..] == [b, c, d] && [b, c, d][1..] == [c, d] && [c, d][1..] == [d];
    var three := Next(Next(Next(s, a), b), c);
    assert After(three, [d]) == Next(three, d);
    assert After(Next(Next(s, a), b), [c, d]) == After(three, [d]);
    assert After(Next(s, a), [b, c, d]) == After(Next(Next(s, a), b), [c, d]);
  }

  /** A read of an unmapped buffer takes an id that nobody gets. */
  lemma CopyLosesAnId()
    ensures var s := Run([Interrupt(3), Call(0, Read), Finish(0, false)]);
      s.accepted == [3] && s.fifo == [] && s.returned == [(0, Uncopied(3))] && Got(s.returned, 0) == []
  {
    hide Le, WordAt, Room, Ready;
    var steps := [Interrupt(3), Call(0, Read), Finish(0, false)];
    RunIsAfter([], steps);
    assert [] + steps == steps;
    TakeOne(3);
    var a := Next(START, Interrupt(3));
    assert a.fifo == Le(3);
    var b := Next(a, Call(0, Read));
    var c := Next(b, Finish(0, false));
    assert c.returned == [(0, Uncopied(3))];
    assert steps[1..] == [Call(0, Read), Finish(0, false)] && steps[1..][1..] == [Finish(0, false)];
    assert After(b, [Finish(0, false)]) == c;
  }

  lemma TakeOne(id: Word)
    ensures |Le(id)| == 4 && Room([]) == 4 && Put([], id) == Le(id)
    ensures Ready(Le(id)) == 4 && Rest(Le(id)) == [] && Overlaid(Le(id), 0) == id
  {
    hide Le, WordAt;
    assert Le(id)[0..4] == Le(id) && Le(id)[..4] + Le(0)[4..] == Le(id);
    WordRoundTrip(Le(id), 0, id);
  }

  /** An abort's flag is used up by a reader before the abort has the lock; an id that comes in
      between is accepted and then flushed, with no abort left for anyone to see. */
  lemma FlushedBehindTheFlag(id: Word)
    ensures var s := Run([Call(0, Read), Abort(1), Wake(0, Condition), Look(0)] + [UseUpAbort(0), Interrupt(id), LookAtReadAbort(1), Acquire(1)]);
      s.accepted == [id] && s.left == [Flushed(id)] && !s.isAbort && s.returned == [(0, Restart)]
  {
    var flagged := [Call(0, Read), Abort(1), Wake(0, Condition), Look(0)];
    var rest := [UseUpAbort(0), Interrupt(id), LookAtReadAbort(1), Acquire(1)];
    RunIsAfter([], flagged);
    RunIsAfter(flagged, rest);
    assert [] + flagged == flagged;
    UntilSeen();
    AfterSeen(id);
  }

  const SEEN := START.(isAbort := true, threads := map[0 := Aborted, 1 := Flagged])

  lemma UntilSeen()
    ensures After(START, [Call(0, Read), Abort(1), Wake(0, Condition), Look(0)]) == SEEN
  {
    AfterFour(START, Call(0, Read), Abort(1), Wake(0, Condition), Look(0));
    var a := Next(START, Call(0, Read));
    var b := Next(a, Abort(1));
    var c := Next(b, Wake(0, Condition));
    assert Next(c, Look(0)) == SEEN;
  }

  lemma OneId(id: Word)
    ensures |Le(id)| == 4 && Ids([] + Le(id)) == [id]
  {
    IdsAppend([], id);
  }

  lemma AfterSeen(id: Word)
    ensures var s := After(SEEN, [UseUpAbort(0), Interrupt(id), LookAtReadAbort(1), Acquire(1)]);
      s.accepted == [id] && s.left == [Flushed(id)] && !s.isAbort && s.returned == [(0, Restart)]
  {
    hide Le, WordAt, Ids;
    AfterFour(SEEN, UseUpAbort(0), Interrupt(id), LookAtReadAbort(1), Acquire(1));
    var a := Next(SEEN, UseUpAbort(0));
    var b := Next(a, Interrupt(id));
    assert b.fifo == [] + Le(id);
    var c := Next(b, LookAtReadAbort(1));
    OneId(id);
    assert Next(c, Acquire(1)).left == [Flushed(id)];
  }
}
