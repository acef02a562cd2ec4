/** memx_fw_log_dump: copying a chip's circular log into linear memory, as a queue shared with the
    firmware that keeps writing while the driver reads. */
module FwLog {

  import opened LittleEndian

  predicate RingSize(n: nat) { n == 0x8000 || n == 0x1_0000 }

  /** A remainder, from any quotient that leaves a number in range. */
  lemma Remainder(x: int, quotient: int, n: nat)
    requires RingSize(n) && 0 <= x - quotient * n < n
    ensures x % n == x - quotient * n
  {
    if n == 0x8000 {
      assert x % 0x8000 == x - quotient * 0x8000;
    } else {
      assert x % 0x1_0000 == x - quotient * 0x1_0000;
    }
  }

  // ----- one dump

  /** A chip's log in coherent memory: 64 KB or 32 KB, with the firmware's write position and the
      driver's read position. */
  class Log {
    const buffer: array<Byte>
    var writePosition: nat
    var readPosition: nat

    /** Both positions are inside the ring; the firmware's is assumed to be. */
    predicate Valid()
      reads this
    {
      (buffer.Length == 0x8000 || buffer.Length == 0x1_0000) && writePosition < buffer.Length && readPosition < buffer.Length
    }

    function Pending(): nat
      reads this
      requires Valid()
    {
      (writePosition - readPosition) % buffer.Length
    }

    constructor (small: bool)
      ensures Valid() && fresh(buffer) && writePosition == readPosition == 0
    {
      buffer := new Byte[if small then 0x8000 else 0x1_0000];
      writePosition, readPosition := 0, 0;
    }

    /** The copy: in one piece, or in two when it reaches the end of the ring. */
    method Linearise() returns (linear: array<Byte>)
      requires Valid()
      ensures fresh(linear) && linear.Length == Pending() + 1 && linear[Pending()] == 0
      ensures forall i :: 0 <= i < Pending() ==> linear[i] == buffer[(readPosition + i) % buffer.Length]
    {
      var total := (writePosition - readPosition) % buffer.Length;
      linear := new Byte[total + 1];
      if readPosition + total < buffer.Length {
        Copy(linear, 0, readPosition, total);
      } else {
        var slice1 := buffer.Length - readPosition;
        var slice2 := total - slice1;
        Copy(linear, 0, readPosition, slice1);
        Copy(linear, slice1, 0, slice2);
      }
      linear[total] := 0;
      forall i | 0 <= i < total
        ensures linear[i] == buffer[(readPosition + i) % buffer.Length]
      {
        Remainder(readPosition + i, if readPosition + i < buffer.Length then 0 else 1, buffer.Length);
      }
    }

    /** memcpy from the ring. */
    method Copy(linear: array<Byte>, to: nat, from: nat, n: nat)
      requires linear != buffer && to + n <= linear.Length && from + n <= buffer.Length
      modifies linear
      ensures forall i :: 0 <= i < linear.Length ==> linear[i] == if to <= i < to + n then buffer[from + (i - to)] else old(linear[i])
    {
      for k := 0 to n
        invariant forall i :: 0 <= i < linear.Length ==> linear[i] == if to <= i < to + k then buffer[from + (i - to)] else old(linear[i])
      {
        linear[to + k] := buffer[from + k];
      }
    }

    /** memx_fw_log_dump for a known chip: without memory nothing is read; otherwise the pending
        bytes are copied and the read position catches up with the write position. */
    method Dump(granted: bool, printed: nat -> Printed) returns (copied: seq<Byte>, starts: seq<nat>)
      requires Valid() && (granted ==> Ends(Pending(), printed))
      modifies this`readPosition
      ensures Valid()
      ensures !granted ==> copied == [] && readPosition == old(readPosition)
      ensures granted ==> Pending() == 0 && readPosition == writePosition
      ensures granted ==> |copied| == old(Pending())
      ensures granted ==> forall i :: 0 <= i < |copied| ==> copied[i] == buffer[(old(readPosition) + i) % buffer.Length]
      ensures granted ==> Pieces(starts, |copied|, printed)
    {
      copied, starts := [], [];
      if granted {
        var linear := Linearise();
        copied := linear[..linear.Length - 1];
        starts := Print(|copied|, printed);
        readPosition := writePosition;
      }
    }
  }

  /** The s32 results of print calls; for larger ones the addition of 2 has no meaning in C. */
  type Printed = x: int | -0x8000_0000 <= x <= 0x7FFF_FFFD

  /** The position after a print, in 32 bits. */
  function Following(position: nat, printed: nat -> Printed): nat {
    (position + printed(position) + 2) % 0x1_0000_0000
  }

  /** The print call of each round of the loop starts at this position; the total stands for a loop
      that has ended. */
  function Position(round: nat, total: nat, printed: nat -> Printed): (position: nat)
    ensures position <= total
  {
    if round == 0 then 0
    else
      var before := Position(round - 1, total, printed);
      if before == total || Following(before, printed) >= total then total else Following(before, printed)
  }

  /** The loop ends: no position comes back. */
  predicate Ends(total: nat, printed: nat -> Printed) {
    forall i: nat, j: nat :: i < j <= total && Position(i, total, printed) == Position(j, total, printed) ==> Position(i, total, printed) == total
  }

  /** Where the printed pieces start: each two bytes after what the one before it printed, from the
      first byte until a position outside the text. */
  predicate Pieces(starts: seq<nat>, total: nat, printed: nat -> Printed) {
    && (total > 0 ==> starts != [] && starts[0] == 0)
    && (forall i :: 0 <= i < |starts| ==> starts[i] < total)
    && (forall i :: 0 < i < |starts| ==> starts[i] == Following(starts[i - 1], printed))
    && (starts != [] ==> Following(starts[|starts| - 1], printed) >= total)
  }

  lemma {:induction false} OverStaysOver(round: nat, later: nat, total: nat, printed: nat -> Printed)
    requires round <= later && Position(round, total, printed) == total
    ensures Position(later, total, printed) == total
    decreases later
  {
    if round < later {
      OverStaysOver(round, later - 1, total, printed);
    }
  }

  /** Positions that come back keep coming back. */
  lemma {:induction false} Repeats(i: nat, j: nat, n: nat, total: nat, printed: nat -> Printed)
    requires Position(i, total, printed) == Position(j, total, printed)
    ensures Position(i + n, total, printed) == Position(j + n, total, printed)
  {
    hide Following;
    if n > 0 {
      Repeats(i, j, n - 1, total, printed);
    }
  }

  /** After a repetition no round is the last one. */
  lemma {:induction false} NeverOver(i: nat, j: nat, round: nat, total: nat, printed: nat -> Printed)
    requires i < j && Position(i, total, printed) == Position(j, total, printed) != total
    ensures Position(round, total, printed) != total
    decreases round
  {
    if Position(round, total, printed) == total {
      if round < j {
        OverStaysOver(round, j, total, printed);
      } else {
        Repeats(i, j, round - j, total, printed);
        NeverOver(i, j, round - (j - i), total, printed);
      }
    }
  }

  /** Different numbers below a bound are not more than the bound. */
  lemma {:induction false} Distinct(s: seq<nat>, bound: nat)
    requires forall i :: 0 <= i < |s| ==> s[i] < bound
    requires forall i, j :: 0 <= i < j < |s| ==> s[i] != s[j]
    ensures |s| <= bound
  {
    if s != [] {
      assert s[0] < bound;
      if k: nat :| k < |s| && s[k] == bound - 1 {
        Distinct(s[..k] + s[k + 1..], bound - 1);
      } else {
        Distinct(s, bound - 1);
      }
    }
  }

  /** A loop in which no position comes back is over after as many rounds as there are bytes. */
  lemma OverInTime(total: nat, printed: nat -> Printed)
    requires Ends(total, printed)
    ensures Position(total, total, printed) == total
  {
    hide Position;
    if Position(total, total, printed) != total {
      forall i: nat | i <= total
        ensures Position(i, total, printed) < total
      {
        if Position(i, total, printed) == total {
          OverStaysOver(i, total, total, printed);
        }
      }
      Distinct(seq(total + 1, i requires 0 <= i => Position(i, total, printed)), total);
    }
  }

  /** The loop ends, whatever the results, if and only if no position comes back; and then it takes
      no more rounds than there are bytes. */
  lemma EndsExactly(total: nat, printed: nat -> Printed)
    ensures Ends(total, printed) <==> exists n: nat :: Position(n, total, printed) == total
    ensures Ends(total, printed) <==> Position(total, total, printed) == total
  {
    hide Position;
    if Ends(total, printed) {
      OverInTime(total, printed);
    } else {
      var i: nat, j: nat :| i < j <= total && Position(i, total, printed) == Position(j, total, printed) && Position(i, total, printed) != total;
      forall n: nat ensures Position(n, total, printed) != total {
        NeverOver(i, j, n, total, printed);
      }
    }
  }

  /** Results of -1 and more let every loop end. */
  lemma ForwardEnds(total: nat, printed: nat -> Printed)
    requires total < 0x8000_0000 && forall p: nat :: p < total ==> -1 <= printed(p)
    ensures Ends(total, printed)
  {
    AtPace(1, total, total, printed);
    EndsExactly(total, printed);
  }

  /** Each round goes on by one byte at least, or by two when no print fails. */
  lemma {:induction false} AtPace(pace: nat, round: nat, total: nat, printed: nat -> Printed)
    requires pace == 1 || pace == 2
    requires total < 0x8000_0000 && forall p: nat :: p < total ==> pace - 2 <= printed(p)
    ensures Position(round, total, printed) >= if pace * round < total then pace * round else total
  {
    if round > 0 {
      var before := Position(round - 1, total, printed);
      AtPace(pace, round - 1, total, printed);
      OneRound(round - 1, total, printed);
      hide Position, Following;
      if before < total {
        Onward(before, total, printed);
      }
    }
  }

  lemma Onward(position: nat, total: nat, printed: nat -> Printed)
    requires position < total < 0x8000_0000
    ensures -2 <= printed(position) ==> Following(position, printed) == position + printed(position) + 2
  {
  }

  lemma FewRounds(rounds: nat, total: nat, printed: nat -> Printed)
    requires total < 0x8000_0000 && (rounds > 0 ==> Position(rounds - 1, total, printed) < total)
    ensures (forall p: nat :: p < total ==> 0 <= printed(p)) ==> rounds <= (total + 1) / 2
  {
    hide Position;
    if rounds > 0 && forall p: nat :: p < total ==> 0 <= printed(p) {
      AtPace(2, rounds - 1, total, printed);
    }
  }

  /** A result of -2 where a piece starts keeps the loop there for ever. */
  lemma StuckForEver(round: nat, total: nat, printed: nat -> Printed)
    requires Position(round, total, printed) < total < 0x8000_0000 && printed(Position(round, total, printed)) == -2
    ensures !Ends(total, printed)
  {
    var p := Position(round, total, printed);
    Wraps(p, total, printed);
    hide Following;
    assert Position(round + 1, total, printed) == p;
    EndsExactly(total, printed);
    NeverOver(round, round + 1, total, total, printed);
  }

  lemma OneRound(round: nat, total: nat, printed: nat -> Printed)
    ensures Position(0, total, printed) == 0
    ensures var before := Position(round, total, printed);
      Position(round + 1, total, printed) ==
        if before == total || Following(before, printed) >= total then total else Following(before, printed)
  {
  }

  /** A print that moves the position below zero wraps around, far behind the text. */
  lemma Wraps(position: nat, total: nat, printed: nat -> Printed)
    requires position < total < 0x8000_0000
    ensures Following(position, printed) == (position + (printed(position) + 2)) % 0x1_0000_0000
    ensures Following(position, printed) < total || printed(position) == -2 ==> Following(position, printed) == position + printed(position) + 2
  {
  }

  /** The rounds of a loop that ends are its pieces. */
  lemma RoundsArePieces(starts: seq<nat>, total: nat, printed: nat -> Printed)
    requires forall i :: 0 <= i < |starts| ==> starts[i] == Position(i, total, printed) < total
    requires Position(|starts|, total, printed) == total
    ensures Pieces(starts, total, printed)
  {
    hide Position, Following;
    OneRound(0, total, printed);
    forall i | 0 < i < |starts|
      ensures starts[i] == Following(starts[i - 1], printed)
    {
      OneRound(i - 1, total, printed);
    }
    if starts != [] {
      OneRound(|starts| - 1, total, printed);
    }
  }

  /** The print loop. `printed` says what a print call at each position returns. */
  method Print(total: nat, printed: nat -> Printed) returns (starts: seq<nat>)
    requires total < 0x8000_0000 && Ends(total, printed)
    ensures Pieces(starts, total, printed)
    ensures |starts| <= total
    ensures (forall p: nat :: p < total ==> 0 <= printed(p)) ==> |starts| <= (total + 1) / 2
    ensures forall i :: 0 <= i < |starts| ==> starts[i] == Position(i, total, printed)
  {
    hide Ends, Position, Following, Pieces;
    EndsExactly(total, printed);
    OneRound(0, total, printed);
    starts := [];
    var position: nat, remaining: int := 0, total;
    while remaining != 0
      invariant position + remaining == total && position <= total && Position(|starts|, total, printed) == position
      invariant |starts| <= total
      invariant forall i :: 0 <= i < |starts| ==> starts[i] == Position(i, total, printed) < total
      decreases total - |starts|
    {
      OneRound(|starts|, total, printed);
      Wraps(position, total, printed);
      var size: int := printed(position);
      starts := starts + [position];
      remaining := remaining - (size + 2);
      position := (position + (size + 2)) % 0x1_0000_0000;
      if position >= total {
        break;
      }
    }
    RoundsArePieces(starts, total, printed);
    FewRounds(|starts|, total, printed);
  }

  // ----- dumps while the firmware writes

  datatype Reader = Idle | Copying(target: nat, copied: seq<Byte>)

  /** The ring and its positions, what the driver is doing, everything the firmware has written and
      everything dumped so far. */
  datatype State = State(ring: seq<Byte>, writePosition: nat, readPosition: nat, reader: Reader,
                         produced: seq<Byte>, dumped: seq<Byte>)

  /** One step of either side: the firmware writes a byte, or the driver samples the write position,
      copies one byte, or stores the new read position. */
  datatype Step = Produce(b: Byte) | Sample | CopyNext | Finish

  predicate Sized(s: State) {
    && (|s.ring| == 0x8000 || |s.ring| == 0x1_0000)
    && s.writePosition < |s.ring| && s.readPosition < |s.ring|
    && (s.reader.Copying? ==> s.reader.target < |s.ring|)
  }

  function Total(s: State): nat
    requires Sized(s) && s.reader.Copying?
  {
    (s.reader.target - s.readPosition) % |s.ring|
  }

  /** The cell that the copy reads for a byte, in one piece or in two. */
  function Cell(s: State, i: nat): (cell: nat)
    requires Sized(s) && s.reader.Copying? && i < Total(s)
    ensures cell < |s.ring|
  {
    if s.readPosition + Total(s) < |s.ring| then s.readPosition + i
    else if i < |s.ring| - s.readPosition then s.readPosition + i
    else i - (|s.ring| - s.readPosition)
  }

  /** A step that is not possible changes nothing. The firmware is assumed to wait when one more
      byte would make the ring look empty. */
  function Next(s: State, step: Step): (r: State)
    requires Sized(s)
    ensures Sized(r)
  {
    match step
    case Produce(b) =>
      var next := (s.writePosition + 1) % |s.ring|;
      if next == s.readPosition then s
      else s.(ring := s.ring[s.writePosition := b], writePosition := next, produced := s.produced + [b])
    case Sample =>
      if s.reader.Idle? then s.(reader := Copying(s.writePosition, [])) else s
    case CopyNext =>
      if s.reader.Copying? && |s.reader.copied| < Total(s) then
        s.(reader := s.reader.(copied := s.reader.copied + [s.ring[Cell(s, |s.reader.copied|)]]))
      else s
    case Finish =>
      if s.reader.Copying? && |s.reader.copied| == Total(s) then
        s.(readPosition := s.reader.target, reader := Idle, dumped := s.dumped + s.reader.copied)
      else s
  }

  function Run(s: State, steps: seq<Step>): (r: State)
    requires Sized(s)
    ensures Sized(r)
    decreases |steps|
  {
    if steps == [] then s else Next(Run(s, steps[..|steps| - 1]), steps[|steps| - 1])
  }

  /** The positions count the bytes dumped and produced; the bytes in between are in the ring; a
      copy under way has read the oldest of them. */
  predicate Consistent(s: State) { Queued(s) && CopyUnderWay(s) }

  predicate Queued(s: State) {
    && Sized(s)
    && |s.dumped| <= |s.produced| < |s.dumped| + |s.ring|
    && s.dumped == s.produced[..|s.dumped|]
    && s.readPosition == |s.dumped| % |s.ring|
    && s.writePosition == |s.produced| % |s.ring|
    && (forall k :: |s.dumped| <= k < |s.produced| ==> s.ring[k % |s.ring|] == s.produced[k])
  }

  predicate CopyUnderWay(s: State)
    requires Queued(s)
  {
    s.reader.Copying? ==>
      && |s.reader.copied| <= Total(s)
      && |s.dumped| + Total(s) <= |s.produced|
      && s.reader.copied == s.produced[|s.dumped|..|s.dumped| + |s.reader.copied|]
  }

  function Start(ring: seq<Byte>): State { State(ring, 0, 0, Idle, [], []) }

  // ----- positions modulo the ring size

  /** Going on from a remainder. */
  lemma Advance(a: nat, d: nat, n: nat)
    requires RingSize(n) && d < n
    ensures (a + d) % n == if a % n + d < n then a % n + d else a % n + d - n
    ensures (a % n + d) % n == (a + d) % n
  {
    var q, r := a / n, a % n;
    assert a == q * n + r;
    if r + d < n {
      Remainder(a + d, q, n);
      Remainder(r + d, 0, n);
    } else {
      assert (q + 1) * n == q * n + n;
      Remainder(a + d, q + 1, n);
      Remainder(r + d, 1, n);
    }
  }

  /** The distance between two remainders less than one turn apart. */
  lemma Distance(a: nat, d: nat, n: nat)
    requires RingSize(n) && d < n
    ensures ((a + d) % n - a % n) % n == d
  {
    Advance(a, d, n);
    if a % n + d < n {
      Remainder(d, 0, n);
    } else {
      Remainder(d - n, -1, n);
    }
  }

  /** The bytes up to a sampled position. */
  lemma TargetPosition(a: nat, target: nat, n: nat)
    requires RingSize(n) && target < n
    ensures (a + (target - a % n) % n) % n == target
  {
    var r := a % n;
    if target >= r {
      Remainder(target - r, 0, n);
      Advance(a, target - r, n);
    } else {
      Remainder(target - r, -1, n);
      Advance(a, target - r + n, n);
    }
  }

  lemma CellPosition(s: State, i: nat)
    requires Sized(s) && s.reader.Copying? && i < Total(s)
    requires s.readPosition == |s.dumped| % |s.ring|
    ensures Cell(s, i) == (|s.dumped| + i) % |s.ring|
  {
    Advance(|s.dumped|, i, |s.ring|);
  }

  // ----- every step keeps the queue

  /** Within one turn positions tell bytes apart. */
  lemma Apart(a: nat, b: nat, n: nat)
    requires RingSize(n) && a < b < a + n
    ensures a % n != b % n
  {
    Distance(a, b - a, n);
    Remainder(0, 0, n);
  }

  /** A write position that would not meet the read position leaves the ring short of full. */
  lemma RoomLeft(from: nat, end: nat, n: nat)
    requires RingSize(n) && from <= end < from + n && (end + 1) % n != from % n
    ensures end + 1 < from + n
  {
    var q := from / n;
    assert from == q * n + from % n && (q + 1) * n == q * n + n;
    if end + 1 == from + n {
      Remainder(end + 1, q + 1, n);
    }
  }

  /** The new byte goes to a cell that holds none of the pending ones. */
  lemma PendingKept(ring: seq<Byte>, produced: seq<Byte>, from: nat, b: Byte)
    requires RingSize(|ring|) && from <= |produced| && |produced| + 1 < from + |ring|
    requires forall k :: from <= k < |produced| ==> ring[k % |ring|] == produced[k]
    ensures var next := ring[|produced| % |ring| := b];
      forall k :: from <= k < |produced| + 1 ==> next[k % |ring|] == (produced + [b])[k]
  {
    forall k | from <= k < |produced| + 1
      ensures ring[|produced| % |ring| := b][k % |ring|] == (produced + [b])[k]
    {
      if k < |produced| {
        Apart(k, |produced|, |ring|);
      }
    }
  }

  lemma ProduceQueues(s: State, b: Byte)
    requires Queued(s)
    ensures Queued(Next(s, Produce(b)))
  {
    var t := Next(s, Produce(b));
    if t != s {
      Advance(|s.produced|, 1, |s.ring|);
      RoomLeft(|s.dumped|, |s.produced|, |s.ring|);
      PendingKept(s.ring, s.produced, |s.dumped|, b);
      assert t.produced[..|s.dumped|] == s.produced[..|s.dumped|];
    }
  }

  lemma ProduceKeeps(s: State, b: Byte)
    requires Consistent(s)
    ensures Consistent(Next(s, Produce(b)))
  {
    ProduceQueues(s, b);
    var t := Next(s, Produce(b));
    assert t.reader == s.reader && t.readPosition == s.readPosition && |t.ring| == |s.ring| && t.dumped == s.dumped;
    assert s.produced <= t.produced;
    CopyStays(s, t);
  }

  /** More bytes behind do not disturb a copy. */
  lemma CopyStays(s: State, t: State)
    requires Queued(s) && Queued(t) && CopyUnderWay(s) && s.produced <= t.produced
    requires t.reader == s.reader && t.readPosition == s.readPosition && |t.ring| == |s.ring| && t.dumped == s.dumped
    ensures CopyUnderWay(t)
  {
    if s.reader.Copying? {
      var from, to := |s.dumped|, |s.dumped| + |s.reader.copied|;
      assert Total(t) == Total(s);
      assert t.produced[from..to] == s.produced[from..to];
    }
  }

  lemma SampleKeeps(s: State)
    requires Consistent(s)
    ensures Consistent(Next(s, Sample))
  {
    Distance(|s.dumped|, |s.produced| - |s.dumped|, |s.ring|);
  }

  lemma CopyKeeps(s: State)
    requires Consistent(s)
    ensures Consistent(Next(s, CopyNext))
  {
    if s.reader.Copying? && |s.reader.copied| < Total(s) {
      CellPosition(s, |s.reader.copied|);
    }
  }

  lemma FinishKeeps(s: State)
    requires Consistent(s)
    ensures Consistent(Next(s, Finish))
  {
    if s.reader.Copying? && |s.reader.copied| == Total(s) {
      var n := |s.ring|;
      TargetPosition(|s.dumped|, s.reader.target, n);
      assert s.produced[..|s.dumped|] + s.reader.copied == s.produced[..|s.dumped| + Total(s)];
    }
  }

  /** Over every interleaving, what the dumps have copied is a prefix of what the firmware has
      written: nothing is lost, repeated or overtaken. */
  lemma {:induction false} DumpsArePrefix(ring: seq<Byte>, steps: seq<Step>)
    requires RingSize(|ring|)
    ensures Consistent(Run(Start(ring), steps))
    ensures Run(Start(ring), steps).dumped <= Run(Start(ring), steps).produced
    decreases |steps|
  {
    if steps != [] {
      DumpsArePrefix(ring, steps[..|steps| - 1]);
      var s := Run(Start(ring), steps[..|steps| - 1]);
      hide Consistent, Next;
      match steps[|steps| - 1] {
        case Produce(b) => ProduceKeeps(s, b);
        case Sample => SampleKeeps(s);
        case CopyNext => CopyKeeps(s);
        case Finish => FinishKeeps(s);
      }
      ConsistentIsPrefix(Run(Start(ring), steps));
    }
  }

  lemma ConsistentIsPrefix(s: State)
    requires Consistent(s)
    ensures s.dumped <= s.produced
  {
  }

  // ----- a dump catches up

  lemma {:induction false} RunAppend(s: State, a: seq<Step>, b: seq<Step>)
    requires Sized(s)
    ensures Run(s, a + b) == Run(Run(s, a), b)
    decreases |b|
  {
    hide Next, Sized;
    if b == [] {
      assert a + b == a;
    } else {
      assert (a + b)[..|a + b| - 1] == a + b[..|b| - 1];
      RunAppend(s, a, b[..|b| - 1]);
    }
  }

  lemma RunOne(s: State, step: Step)
    requires Sized(s)
    ensures Run(s, [step]) == Next(s, step)
  {
    hide Next, Sized;
    assert [step][..0] == [];
    assert Run(s, []) == s;
  }

  function CopySteps(n: nat): seq<Step> { seq(n, _ => CopyNext) }

  /** Copying as many bytes as there are up to the target. */
  lemma {:induction false} CopiesReach(s: State, n: nat)
    requires Consistent(s) && s.reader.Copying? && |s.reader.copied| + n <= Total(s)
    ensures var t := Run(s, CopySteps(n));
      && Consistent(t) && t.reader.Copying? && |t.reader.copied| == |s.reader.copied| + n
      && t == s.(reader := s.reader.(copied := t.reader.copied))
  {
    hide Consistent;
    if n == 0 {
      assert CopySteps(0) == [];
    } else {
      CopiesReach(s, n - 1);
      assert CopySteps(n)[..n - 1] == CopySteps(n - 1);
      CopyKeeps(Run(s, CopySteps(n - 1)));
    }
  }

  lemma PendingTotal(s: State)
    requires Consistent(s) && s.reader.Idle?
    ensures var t := Next(s, Sample);
      t == s.(reader := Copying(s.writePosition, [])) && Total(t) == |s.produced| - |s.dumped| && Total(t) < |s.ring|
  {
    Distance(|s.dumped|, |s.produced| - |s.dumped|, |s.ring|);
  }

  lemma FinishTakesAll(s: State)
    requires Consistent(s) && s.reader.Copying? && |s.reader.copied| == Total(s) && |s.dumped| + Total(s) == |s.produced|
    ensures Next(s, Finish) == s.(readPosition := s.reader.target, reader := Idle, dumped := s.produced)
  {
    assert s.dumped + s.produced[|s.dumped|..] == s.produced;
  }

  /** From every state that a run reaches between two dumps: sampling the write position, copying byte
      by byte and finishing leaves everything that the firmware had written dumped, and nothing
      pending. */
  lemma DumpCatchesUp(ring: seq<Byte>, steps: seq<Step>)
    requires RingSize(|ring|) && Run(Start(ring), steps).reader.Idle?
    ensures |Run(Start(ring), steps).dumped| <= |Run(Start(ring), steps).produced|
    ensures var s := Run(Start(ring), steps);
      var t := Run(Start(ring), steps + ([Sample] + CopySteps(|s.produced| - |s.dumped|) + [Finish]));
      t.dumped == t.produced == s.produced && t.reader.Idle? && t.readPosition == t.writePosition == s.writePosition
  {
    hide Run, Consistent, Next, CopySteps;
    var s := Run(Start(ring), steps);
    DumpsArePrefix(ring, steps);
    var n := |s.produced| - |s.dumped|;
    RunAppend(Start(ring), steps, [Sample] + CopySteps(n) + [Finish]);
    RunAppend(s, [Sample] + CopySteps(n), [Finish]);
    RunAppend(s, [Sample], CopySteps(n));
    RunOne(s, Sample);
    SampleKeeps(s);
    PendingTotal(s);
    var a := Next(s, Sample);
    CopiesReach(a, n);
    var b := Run(a, CopySteps(n));
    RunOne(b, Finish);
    FinishTakesAll(b);
  }
}
