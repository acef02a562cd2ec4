/** What readers and aborts get done, from every state that a run can reach: who waits for an id gets
    the oldest one, and an abort empties the queue. */
module RxProgress {
  import opened LittleEndian
  import opened RxQueue
  import opened RxRuns

  predicate OnlyInterrupts(steps: seq<Step>) { forall i :: 0 <= i < |steps| ==> steps[i].Interrupt? }

  /** Nothing but new ids behind the queued ones, and ids lost. */
  predicate OnlyMore(s: State, t: State) {
    && t.lock == s.lock && t.isAbort == s.isAbort && t.isReadAbort == s.isReadAbort && t.files == s.files
    && t.threads == s.threads && t.left == s.left && t.returned == s.returned
    && s.fifo <= t.fifo
  }

  lemma {:induction false} InterruptsAddMore(s: State, steps: seq<Step>)
    requires Sound(s) && OnlyInterrupts(steps)
    ensures Sound(After(s, steps)) && OnlyMore(s, After(s, steps))
    decreases |steps|
  {
    hide Sound, Put, Room;
    if steps != [] {
      StepKeeps(s, steps[0]);
      InterruptsAddMore(Next(s, steps[0]), steps[1..]);
      PutExtends(s.fifo, steps[0].id);
    }
  }

  lemma PutExtends(fifo: seq<Byte>, id: Word)
    ensures fifo <= Put(fifo, id)
  {
  }

  /** The oldest id is read from the first four bytes. */
  function Oldest(fifo: seq<Byte>): Word { Overlaid(fifo, 0) }

  lemma OldestIsFirst(fifo: seq<Byte>)
    requires Whole(fifo) && fifo != []
    ensures Ready(fifo) == 4 && |fifo| >= 4 && Ids(fifo) == [Oldest(fifo)] + Ids(Rest(fifo)) && Oldest(fifo) == WordAt(fifo, 0)
  {
    TakeWhole(fifo, 0);
    FirstWord(fifo);
  }

  lemma FirstWord(fifo: seq<Byte>)
    requires |fifo| >= 4
    ensures Overlaid(fifo, 0) == WordAt(fifo, 0)
  {
    hide Le;
    assert fifo[..4] + Le(0)[4..] == fifo[..4];
    assert fifo == fifo[..4] + fifo[4..];
    FrontWord(fifo[..4], fifo[4..]);
  }

  lemma SameOldest(fifo: seq<Byte>, more: seq<Byte>)
    requires Whole(fifo) && Whole(more) && fifo != [] && fifo <= more
    ensures Oldest(more) == Oldest(fifo)
  {
    hide Overlaid, Le;
    FirstWord(fifo);
    FirstWord(more);
    assert more == fifo + more[|fifo|..];
    FrontWord(fifo, more[|fifo|..]);
  }

  lemma FreeIsWhole(s: State)
    requires Sound(s) && s.lock == Free
    ensures Whole(s.fifo)
  {
  }

  // ----- readers

  /** The steps of a reader that is roused because there is something to take, with interrupts coming
      in between. */
  function Waking(reader: nat, first: seq<Step>, second: seq<Step>): seq<Step> {
    [Wake(reader, Condition)] + first + [Look(reader)] + second + [Take(reader)]
  }

  lemma AfterOne(s: State, step: Step)
    ensures After(s, [step]) == Next(s, step)
  {
    hide Next;
    assert [step][1..] == [];
    assert After(Next(s, step), []) == Next(s, step);
  }

  lemma {:induction false} AfterAppend(s: State, a: seq<Step>, b: seq<Step>)
    ensures After(s, a + b) == After(After(s, a), b)
    decreases |a|
  {
    hide Next;
    if a == [] {
      assert a + b == b;
    } else {
      assert (a + b)[1..] == a[1..] + b;
      AfterAppend(Next(s, a[0]), a[1..], b);
    }
  }

  /** A waiting reader goes as far as being allowed to take. */
  lemma WakesUp(s: State, reader: nat, first: seq<Step>, second: seq<Step>)
    requires Sound(s) && s.lock == Free && s.fifo != [] && ThreadOf(s, reader).Waiting? && (ThreadOf(s, reader).kind == Read ==> !s.isAbort)
    requires OnlyInterrupts(first) && OnlyInterrupts(second)
    ensures var t := After(s, [Wake(reader, Condition)] + first + [Look(reader)] + second);
      Sound(t) && OnlyMore(Go(s, reader, MayTake(ThreadOf(s, reader).kind)), t)
  {
    hide Sound, After, Put, Room, OnlyInterrupts;
    var kind := ThreadOf(s, reader).kind;
    AfterAppend(s, [Wake(reader, Condition)] + first + [Look(reader)], second);
    AfterAppend(s, [Wake(reader, Condition)] + first, [Look(reader)]);
    AfterAppend(s, [Wake(reader, Condition)], first);
    AfterOne(s, Wake(reader, Condition));
    StepKeeps(s, Wake(reader, Condition));
    var s1 := Next(s, Wake(reader, Condition));
    InterruptsAddMore(s1, first);
    var s2 := After(s1, first);
    AfterOne(s2, Look(reader));
    StepKeeps(s2, Look(reader));
    var s3 := Next(s2, Look(reader));
    InterruptsAddMore(s3, second);
    assert s.threads[reader := Roused(kind, Condition)][reader := MayTake(kind)] == s.threads[reader := MayTake(kind)];
  }

  /** What taking the oldest id comes to: a dummy read returns it, and so does a read of an id that is
      negative as an s32; any other read has it in hand. */
  predicate Took(s: State, t: State, reader: nat, kind: Kind, id: Word) {
    && t.left == s.left + [Delivered(reader, id)]
    && t.lock == Free && t.isAbort == s.isAbort
    && if kind == Read && id < 0x8000_0000 then ThreadOf(t, reader) == InHand(id) && t.returned == s.returned
       else ThreadOf(t, reader) == Away && t.returned == s.returned + [(reader, Id(id))]
  }

  /** In every run: with ids queued, the lock free and no abort for a read, a waiting reader that wakes
      up, looks and takes, with any interrupts in between, takes the oldest id. */
  lemma WaiterTakesOldest(steps: seq<Step>, reader: nat, first: seq<Step>, second: seq<Step>)
    requires var s := Run(steps); s.lock == Free && s.fifo != [] && ThreadOf(s, reader).Waiting? && (ThreadOf(s, reader).kind == Read ==> !s.isAbort)
    requires OnlyInterrupts(first) && OnlyInterrupts(second)
    ensures |Run(steps).fifo| % 4 == 0 && |Run(steps).fifo| > 0
    ensures var s, t := Run(steps), Run(steps + Waking(reader, first, second));
      Took(s, t, reader, ThreadOf(s, reader).kind, Ids(s.fifo)[0])
  {
    hide Run, After, Sound, OnlyInterrupts, Ids;
    var s, kind := Run(steps), ThreadOf(Run(steps), reader).kind;
    EveryRunIsSound(steps);
    FreeIsWhole(s);
    OldestIsFirst(s.fifo);
    RunIsAfter(steps, Waking(reader, first, second));
    var until := [Wake(reader, Condition)] + first + [Look(reader)] + second;
    AfterAppend(s, until, [Take(reader)]);
    WakesUp(s, reader, first, second);
    var m := After(s, until);
    AfterOne(m, Take(reader));
    FreeIsWhole(m);
    TakesOldest(s, m, reader, kind);
  }

  lemma TakesOldest(s: State, m: State, reader: nat, kind: Kind)
    requires Whole(s.fifo) && Whole(m.fifo) && s.fifo != [] && s.lock == Free
    requires OnlyMore(Go(s, reader, MayTake(kind)), m)
    ensures Took(s, Next(m, Take(reader)), reader, kind, Oldest(s.fifo))
  {
    hide Overlaid, Rest, Ids;
    SameOldest(s.fifo, m.fifo);
    OldestIsFirst(m.fifo);
  }

  /** And finishing returns it, unless the copy fails. */
  lemma InHandIsReturned(s: State, reader: nat, copied: bool)
    requires ThreadOf(s, reader).InHand?
    ensures var t, id := Next(s, Finish(reader, copied)), ThreadOf(s, reader).id;
      && ThreadOf(t, reader) == Away && t.fifo == s.fifo && t.left == s.left
      && t.returned == s.returned + [(reader, if copied then Id(id) else Uncopied(id))]
  {
  }

  /** A call that finds ids queued takes the oldest one at once; one that does not waits. */
  lemma CallTakesOldest(steps: seq<Step>, reader: nat, kind: Kind)
    requires var s := Run(steps); s.lock == Free && ThreadOf(s, reader) == Away
    ensures var s, t := Run(steps), Run(steps + [Call(reader, kind)]);
      && |s.fifo| % 4 == 0
      && (s.fifo != [] ==> Took(s, t, reader, kind, Ids(s.fifo)[0]))
      && (s.fifo == [] ==> t == Go(s, reader, Waiting(kind)))
  {
    hide Run, After, Sound, Ids, Overlaid, Rest;
    var s := Run(steps);
    EveryRunIsSound(steps);
    FreeIsWhole(s);
    RunIsAfter(steps, [Call(reader, kind)]);
    AfterOne(s, Call(reader, kind));
    if s.fifo != [] {
      OldestIsFirst(s.fifo);
    }
  }

  lemma AfterTwo(s: State, a: Step, b: Step)
    ensures After(s, [a, b]) == Next(Next(s, a), b)
  {
    hide Next, After;
    assert [a, b] == [a] + [b];
    AfterAppend(s, [a], [b]);
    AfterOne(s, a);
    AfterOne(Next(s, a), b);
  }

  /** With nothing queued and no abort: a read whose time is up waits again, as if nothing had
      happened; a dummy read returns -ERESTARTSYS; and so do both on a signal. */
  lemma NothingCame(s: State, reader: nat)
    requires ThreadOf(s, reader).Waiting? && s.fifo == [] && (ThreadOf(s, reader).kind == Read ==> !s.isAbort)
    ensures var t := After(s, [Wake(reader, Elapsed), Look(reader)]);
      if ThreadOf(s, reader).kind == Read then t == s else t == Return(s, reader, Restart)
    ensures After(s, [Wake(reader, Interrupted), Look(reader)]) == Return(s, reader, Restart)
    ensures After(s, [Wake(reader, Condition), Look(reader)]) == s
  {
    hide After, Next;
    AfterTwo(s, Wake(reader, Elapsed), Look(reader));
    AfterTwo(s, Wake(reader, Interrupted), Look(reader));
    AfterTwo(s, Wake(reader, Condition), Look(reader));
    TimeIsUp(s, reader);
    SignalCame(s, reader);
  }

  lemma TimeIsUp(s: State, reader: nat)
    requires ThreadOf(s, reader).Waiting? && s.fifo == [] && (ThreadOf(s, reader).kind == Read ==> !s.isAbort)
    ensures var t := Next(Next(s, Wake(reader, Elapsed)), Look(reader));
      if ThreadOf(s, reader).kind == Read then t == s else t == Return(s, reader, Restart)
  {
    var kind := ThreadOf(s, reader).kind;
    assert s.threads[reader := Roused(kind, Elapsed)][reader := Waiting(Read)] == s.threads[reader := Waiting(Read)];
    assert kind == Read ==> s.threads[reader := Waiting(Read)] == s.threads;
    assert s.threads[reader := Roused(kind, Elapsed)][reader := Away] == s.threads[reader := Away];
  }

  lemma SignalCame(s: State, reader: nat)
    requires ThreadOf(s, reader).Waiting? && s.fifo == [] && (ThreadOf(s, reader).kind == Read ==> !s.isAbort)
    ensures Next(Next(s, Wake(reader, Interrupted)), Look(reader)) == Return(s, reader, Restart)
    ensures Next(Next(s, Wake(reader, Condition)), Look(reader)) == s
  {
    var kind := ThreadOf(s, reader).kind;
    assert s.threads[reader := Roused(kind, Interrupted)][reader := Away] == s.threads[reader := Away];
  }

  /** An abort ends a waiting read with -ERESTARTSYS and is used up; a dummy read does not notice it. */
  lemma AbortEndsRead(s: State, reader: nat)
    requires ThreadOf(s, reader) == Waiting(Read) && s.isAbort
    ensures After(s, [Wake(reader, Condition), Look(reader)] + [UseUpAbort(reader)]) == Return(s, reader, Restart).(isAbort := false)
  {
    hide After;
    AfterAppend(s, [Wake(reader, Condition), Look(reader)], [UseUpAbort(reader)]);
    AfterTwo(s, Wake(reader, Condition), Look(reader));
    var t := After(s, [Wake(reader, Condition), Look(reader)]);
    AfterOne(t, UseUpAbort(reader));
    assert s.threads[reader := Roused(Read, Condition)][reader := Aborted][reader := Away] == s.threads[reader := Away];
  }

  /** A reader whose id another one has taken returns -EFAULT. */
  lemma BeatenReader(s: State, reader: nat)
    requires ThreadOf(s, reader).MayTake? && s.lock == Free && s.fifo == []
    ensures Next(s, Take(reader)) == Return(s, reader, Beaten)
  {
  }

  // ----- aborts

  function Skips(n: nat): seq<Step> { seq(n, _ => SkipByte) }

  lemma {:induction false} SkipsEmpty(s: State)
    requires s.lock != Free
    ensures After(s, Skips(|s.fifo|)) == s.(fifo := [])
    decreases |s.fifo|
  {
    if s.fifo == [] {
      assert Skips(0) == [];
    } else {
      assert Skips(|s.fifo|)[1..] == Skips(|s.fifo| - 1);
      SkipsEmpty(Next(s, SkipByte));
    }
  }

  /** The steps of an abort that empties a queue of n bytes. */
  function Aborting(thread: nat, n: nat): seq<Step> {
    [Abort(thread), LookAtReadAbort(thread)] + [Acquire(thread)] + Skips(n) + [Unlock]
  }

  /** In every run: an abort that is not held up raises its flag, flushes every queued id, and leaves
      an empty queue and a free lock. */
  lemma AbortFlushes(steps: seq<Step>, thread: nat)
    requires var s := Run(steps); s.lock == Free && ThreadOf(s, thread) == Away && !s.isReadAbort
    ensures |Run(steps).fifo| % 4 == 0
    ensures var s := Run(steps);
      Run(steps + Aborting(thread, |s.fifo|)) == Go(s, thread, Away).(isAbort := true, fifo := [], left := s.left + FlushedAll(Ids(s.fifo)))
  {
    hide Run, After, Sound, Ids, FlushedAll, Skips, Next;
    var s, flag := Run(steps), [Abort(thread), LookAtReadAbort(thread)];
    EveryRunIsSound(steps);
    FreeIsWhole(s);
    RunIsAfter(steps, Aborting(thread, |s.fifo|));
    AfterAppend(s, flag + [Acquire(thread)] + Skips(|s.fifo|), [Unlock]);
    AfterAppend(s, flag + [Acquire(thread)], Skips(|s.fifo|));
    AfterAppend(s, flag, [Acquire(thread)]);
    AfterTwo(s, Abort(thread), LookAtReadAbort(thread));
    AfterOne(After(s, flag), Acquire(thread));
    HeldAndFlushed(s, thread);
    var b := Next(After(s, flag), Acquire(thread));
    SkipsEmpty(b);
    AfterOne(b.(fifo := []), Unlock);
  }

  lemma HeldAndFlushed(s: State, thread: nat)
    requires s.lock == Free && ThreadOf(s, thread) == Away && !s.isReadAbort && |s.fifo| % 4 == 0
    ensures var b := Next(Next(Next(s, Abort(thread)), LookAtReadAbort(thread)), Acquire(thread));
      && b.lock != Free && b.fifo == s.fifo
      && Next(b.(fifo := []), Unlock) == Go(s, thread, Away).(isAbort := true, fifo := [], left := s.left + FlushedAll(Ids(s.fifo)))
  {
    hide Ids, FlushedAll, Room, Put, TakeOut, Looked, Met, Return;
    assert s.threads[thread := Flagged][thread := Locking][thread := Away] == s.threads[thread := Away];
  }

  /** When reads have been told to go on, an abort only raises its flag, and the queue is spared. */
  lemma AbortSpares(s: State, thread: nat)
    requires ThreadOf(s, thread) == Away
    ensures After(s, [SetReadAbort] + [Abort(thread), LookAtReadAbort(thread)]) == Go(s, thread, Away).(isAbort := true, isReadAbort := true)
    ensures s.isReadAbort ==> After(s, [Abort(thread), LookAtReadAbort(thread)]) == Go(s, thread, Away).(isAbort := true)
  {
    hide After;
    AfterAppend(s, [SetReadAbort], [Abort(thread), LookAtReadAbort(thread)]);
    AfterOne(s, SetReadAbort);
    AfterTwo(s, Abort(thread), LookAtReadAbort(thread));
    AfterTwo(Next(s, SetReadAbort), Abort(thread), LookAtReadAbort(thread));
    assert s.threads[thread := Flagged][thread := Away] == s.threads[thread := Away];
  }

  /** The first file that is opened starts without an abort; later ones change no flag. */
  lemma FirstOpenStartsAfresh(s: State)
    ensures Next(s, Open) == s.(files := s.files + 1, isAbort := s.isAbort && s.files > 0, isReadAbort := s.isReadAbort && s.files > 0)
    ensures Next(Next(s, Open), Release) == s.(isAbort := s.isAbort && s.files > 0, isReadAbort := s.isReadAbort && s.files > 0)
  {
  }
}
