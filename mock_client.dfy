/**
 * The echo benchmark client (mock-client/src/main.rs): `number` tasks each
 * hold one connection and run a write/read loop that counts requests and
 * responses until the test duration has elapsed; the driver then adds up the
 * per-task counts it receives and prints truncated per-second rates.
 *
 * Sockets, the clock and the channel are replaced by inputs: each task is
 * given the sequence of outcomes its loop observes, and the driver the order
 * in which the task messages arrive.
 */
module MockClient {
  import opened Options

  type Byte = bv8

  /** Size of the send buffer, and the largest payload length accepted. */
  const BufferSize: nat := 4096
  const NanosPerSecond: nat := 1_000_000_000
  /** Bytes per megabit as the rate report computes it: 1024 * 128. */
  const BytesPerMegabit: nat := 131072

  /** Per-task counters: responses read (`inb`) and requests written (`outb`). */
  datatype Count = Count(inb: nat, outb: nat)

  function Add(a: Count, b: Count): (c: Count)
    ensures c.inb == a.inb + b.inb && c.outb == a.outb + b.outb
  {
    Count(a.inb + b.inb, a.outb + b.outb)
  }

  datatype WriteResult = WriteOk | WriteErr
  datatype ReadResult = ReadOk(n: nat) | WouldBlock | ReadErr

  /** One pass through the loop body as the task observes it: the result of
      writing the payload, the result of the read that follows, and the time
      in nanoseconds since the loop started when the deadline is checked.
      Fields that a pass does not reach are ignored. */
  datatype Round = Round(write: WriteResult, read: ReadResult, elapsed: nat)

  /** Why a task loop stopped; `Running` if the supplied rounds ran out first. */
  datatype Exit = WriteError | ReadError | Deadline | Running

  /** The counters, the exit and the number of rounds consumed. */
  datatype TaskRun = TaskRun(sum: Count, exit: Exit, rounds: nat)

  /** A round after which the loop goes on: the write succeeded and the read
      either would block (which skips the deadline check) or returned any
      number of bytes, zero included, before the deadline had passed. */
  predicate Continues(r: Round, totltime: nat)
  {
    r.write.WriteOk? && (r.read.WouldBlock? || (r.read.ReadOk? && r.elapsed <= totltime))
  }

  /** The exit a round causes when it stops the loop. */
  function ExitOf(r: Round): Exit
  {
    if r.write.WriteErr? then WriteError
    else if r.read.ReadErr? then ReadError
    else Deadline
  }

  /** The task loop from round `i` on, with counters `c` so far. */
  function Loop(c: Count, rounds: seq<Round>, i: nat, totltime: nat): (t: TaskRun)
    requires i <= |rounds|
    ensures i <= t.rounds <= |rounds|
    ensures t.rounds == i <==> i == |rounds|
    decreases |rounds| - i
  {
    if i == |rounds| then TaskRun(c, Running, i)
    else
      var r := rounds[i];
      if r.write.WriteErr? then TaskRun(c, WriteError, i + 1)
      else
        var c1 := c.(outb := c.outb + 1);
        match r.read
        case WouldBlock => Loop(c1, rounds, i + 1, totltime)
        case ReadErr => TaskRun(c1, ReadError, i + 1)
        case ReadOk(_) =>
          var c2 := c1.(inb := c1.inb + 1);
          if r.elapsed > totltime then TaskRun(c2, Deadline, i + 1)
          else Loop(c2, rounds, i + 1, totltime)
  }

  /** The run of a task from a zero count. */
  function Task(rounds: seq<Round>, totltime: nat): TaskRun
  {
    Loop(Count(0, 0), rounds, 0, totltime)
  }

  /** Number of rounds in `rs` whose write succeeded. */
  function Writes(rs: seq<Round>): nat
  {
    if rs == [] then 0 else (if rs[0].write.WriteOk? then 1 else 0) + Writes(rs[1..])
  }

  /** Number of rounds in `rs` whose write and read both succeeded. */
  function Responses(rs: seq<Round>): nat
  {
    if rs == [] then 0
    else (if rs[0].write.WriteOk? && rs[0].read.ReadOk? then 1 else 0) + Responses(rs[1..])
  }

  /** Number of rounds in `rs` whose write succeeded and whose read would block. */
  function Blocks(rs: seq<Round>): nat
  {
    if rs == [] then 0
    else (if rs[0].write.WriteOk? && rs[0].read.WouldBlock? then 1 else 0) + Blocks(rs[1..])
  }

  /** The rounds a loop consumed, all but the last proceed; the last is the
      one that stops it unless the rounds ran out. */
  lemma {:induction false} LoopStops(c: Count, rounds: seq<Round>, i: nat, totltime: nat)
    requires i <= |rounds|
    ensures var t := Loop(c, rounds, i, totltime);
      i <= t.rounds <= |rounds| &&
      (t.exit == Running <==> t.rounds == |rounds| && forall k :: i <= k < |rounds| ==> Continues(rounds[k], totltime)) &&
      (t.exit != Running ==>
         i < t.rounds && !Continues(rounds[t.rounds - 1], totltime) &&
         ExitOf(rounds[t.rounds - 1]) == t.exit &&
         forall k :: i <= k < t.rounds - 1 ==> Continues(rounds[k], totltime))
    decreases |rounds| - i
  {
    if i < |rounds| && Continues(rounds[i], totltime) {
      var r := rounds[i];
      var c2 := if r.read.ReadOk? then Count(c.inb + 1, c.outb + 1) else c.(outb := c.outb + 1);
      LoopStops(c2, rounds, i + 1, totltime);
    }
  }

  /** `outb` counts the successful writes and `inb` the successful reads among
      the rounds consumed; their difference is the would-block reads plus one
      when the loop ended on a read error. */
  lemma {:induction false} LoopCounts(c: Count, rounds: seq<Round>, i: nat, totltime: nat)
    requires i <= |rounds|
    ensures var t := Loop(c, rounds, i, totltime);
      i <= t.rounds <= |rounds| &&
      t.sum.outb == c.outb + Writes(rounds[i..t.rounds]) &&
      t.sum.inb == c.inb + Responses(rounds[i..t.rounds]) &&
      t.sum.outb - t.sum.inb == c.outb - c.inb + Blocks(rounds[i..t.rounds]) + (if t.exit == ReadError then 1 else 0)
    decreases |rounds| - i
  {
    var t := Loop(c, rounds, i, totltime);
    if i < |rounds| {
      var r := rounds[i];
      if r.write.WriteOk? && (r.read.WouldBlock? || (r.read.ReadOk? && r.elapsed <= totltime)) {
        var c2 := if r.read.ReadOk? then Count(c.inb + 1, c.outb + 1) else c.(outb := c.outb + 1);
        LoopCounts(c2, rounds, i + 1, totltime);
        assert rounds[i..t.rounds][1..] == rounds[i + 1..t.rounds];
      } else {
        assert rounds[i..t.rounds] == [r];
        assert [r][1..] == [];
      }
    } else {
      assert rounds[i..t.rounds] == [];
    }
  }

  /** On any trace, a task has read at most as many responses as it wrote requests. */
  lemma TaskBalance(rounds: seq<Round>, totltime: nat)
    ensures var t := Task(rounds, totltime);
      t.sum.inb <= t.sum.outb &&
      t.sum.outb - t.sum.inb == Blocks(rounds[..t.rounds]) + (if t.exit == ReadError then 1 else 0)
  {
    LoopCounts(Count(0, 0), rounds, 0, totltime);
  }

  /** A loop that ends at the deadline has just read a response after the
      test duration had been exceeded. */
  lemma DeadlineExceeded(rounds: seq<Round>, totltime: nat)
    requires Task(rounds, totltime).exit == Deadline
    ensures var t := Task(rounds, totltime);
      0 < t.rounds && rounds[t.rounds - 1].write.WriteOk? &&
      rounds[t.rounds - 1].read.ReadOk? && rounds[t.rounds - 1].elapsed > totltime
  {
    LoopStops(Count(0, 0), rounds, 0, totltime);
  }

  /** A 0-byte read before the deadline does not end the loop. */
  lemma ZeroByteReadContinues(rounds: seq<Round>, totltime: nat, k: nat)
    requires k < Task(rounds, totltime).rounds
    requires rounds[k].write.WriteOk? && rounds[k].read == ReadOk(0) && rounds[k].elapsed <= totltime
    ensures k + 1 < Task(rounds, totltime).rounds || Task(rounds, totltime).exit == Running
  {
    LoopStops(Count(0, 0), rounds, 0, totltime);
  }

  /** A would-block read never ends the loop, however late it is: the next
      round starts with another write. */
  lemma WouldBlockRetries(rounds: seq<Round>, totltime: nat, k: nat)
    requires k < Task(rounds, totltime).rounds
    requires rounds[k].write.WriteOk? && rounds[k].read.WouldBlock?
    ensures k + 1 < Task(rounds, totltime).rounds || Task(rounds, totltime).exit == Running
  {
    LoopStops(Count(0, 0), rounds, 0, totltime);
  }

  /** The task body: write the payload slice of the send buffer, read the
      response, count both, and check the deadline after a successful read. */
  method RunTask(length: nat, rounds: seq<Round>, totltime: nat) returns (sum: Count, exit: Exit, used: nat)
    requires length <= BufferSize
    ensures TaskRun(sum, exit, used) == Task(rounds, totltime)
  {
    sum := Count(0, 0);
    var outBuf := new Byte[BufferSize](_ => 0);
    var i := 0;
    while i < |rounds|
      invariant 0 <= i <= |rounds|
      invariant Loop(sum, rounds, i, totltime) == Task(rounds, totltime)
      decreases |rounds| - i
    {
      var r := rounds[i];
      // The request written is `outBuf[0..length]`; it is in bounds because
      // of the length cap the driver enforces.
      var request := outBuf[0..length];
      i := i + 1;
      match r.write {
        case WriteErr =>
          exit, used := WriteError, i;
          return;
        case WriteOk =>
          sum := sum.(outb := sum.outb + 1);
      }
      match r.read {
        case WouldBlock =>
          continue;
        case ReadErr =>
          exit, used := ReadError, i;
          return;
        case ReadOk(_) =>
          sum := sum.(inb := sum.inb + 1);
      }
      if r.elapsed > totltime {
        exit, used := Deadline, i;
        return;
      }
    }
    exit, used := Running, i;
  }

  /** The count the driver takes from one received message; `None` counts as zero. */
  function Received(m: Option<Count>): Count
  {
    match m
    case Some(c) => c
    case None => Count(0, 0)
  }

  /** The sum of the received counts, in arrival order. */
  function Total(msgs: seq<Option<Count>>): Count
  {
    if msgs == [] then Count(0, 0)
    else Add(Total(msgs[..|msgs| - 1]), Received(msgs[|msgs| - 1]))
  }

  /** The driver's merge loop over the received messages. */
  method Merge(msgs: seq<Option<Count>>) returns (sum: Count)
    ensures sum == Total(msgs)
  {
    sum := Count(0, 0);
    for k := 0 to |msgs|
      invariant sum == Total(msgs[..k])
    {
      assert msgs[..k + 1][..k] == msgs[..k];
      var c := match msgs[k] case Some(c) => c case None => Count(0, 0);
      sum := sum.(inb := sum.inb + c.inb, outb := sum.outb + c.outb);
    }
    assert msgs[..|msgs|] == msgs;
  }

  lemma {:induction false} TotalConcat(a: seq<Option<Count>>, b: seq<Option<Count>>)
    ensures Total(a + b) == Add(Total(a), Total(b))
    decreases |b|
  {
    if b == [] {
      assert a + b == a;
    } else {
      var n := |b| - 1;
      assert (a + b)[..|a + b| - 1] == a + b[..n];
      TotalConcat(a, b[..n]);
    }
  }

  /** A `None` adds nothing to the total. */
  lemma TotalIgnoresNone(a: seq<Option<Count>>, b: seq<Option<Count>>)
    ensures Total(a + [None] + b) == Total(a + b)
  {
    TotalConcat(a + [None], b);
    TotalConcat(a, b);
    assert (a + [None])[..|a|] == a;
  }

  /** The total does not depend on the order in which the messages arrive. */
  lemma {:induction false} TotalPermutation(a: seq<Option<Count>>, b: seq<Option<Count>>)
    requires multiset(a) == multiset(b)
    ensures Total(a) == Total(b)
    decreases |a|
  {
    if a != [] {
      var n := |a| - 1;
      var x := a[n];
      assert x in multiset(b) by { assert a == a[..n] + [x]; }
      var j :| 0 <= j < |b| && b[j] == x;
      var rest := b[..j] + b[j + 1..];
      assert b == b[..j] + [x] + b[j + 1..];
      RemoveMatching(a, n, b, j);
      assert a[..n] + a[n + 1..] == a[..n];
      TotalPermutation(a[..n], rest);
      TotalConcat(b[..j] + [x], b[j + 1..]);
      TotalConcat(b[..j], b[j + 1..]);
      assert (b[..j] + [x])[..j] == b[..j];
    }
  }

  /** Taking one equal element out of two permutations of each other leaves
      two permutations of each other. */
  lemma RemoveMatching<T>(p: seq<T>, i: nat, q: seq<T>, j: nat)
    requires multiset(p) == multiset(q)
    requires i < |p| && j < |q| && p[i] == q[j]
    ensures multiset(p[..i] + p[i + 1..]) == multiset(q[..j] + q[j + 1..])
  {
    assert p == p[..i] + [p[i]] + p[i + 1..];
    assert q == q[..j] + [q[j]] + q[j + 1..];
    assert multiset(p[..i] + p[i + 1..]) == multiset(p) - multiset{p[i]};
    assert multiset(q[..j] + q[j + 1..]) == multiset(q) - multiset{q[j]};
  }

  /** The three figures of the speed line. */
  datatype Speed = Speed(requestsPerSec: nat, mbps: nat, responsesPerSec: nat)

  /** Truncating integer rates over a test of `duration` seconds. Megabits
      per second are derived from the already truncated requests/sec. */
  function Rates(sum: Count, length: nat, duration: nat): (s: Speed)
    requires duration > 0
    ensures s.requestsPerSec * duration <= sum.outb < (s.requestsPerSec + 1) * duration
    ensures s.responsesPerSec * duration <= sum.inb < (s.responsesPerSec + 1) * duration
    ensures s.mbps * BytesPerMegabit <= s.requestsPerSec * length < (s.mbps + 1) * BytesPerMegabit
  {
    var rps := sum.outb / duration;
    Speed(rps, rps * length / 1024 / 128, sum.inb / duration)
  }

  /** Truncating first makes the Mbps figure at most the exact one. */
  lemma MbpsBound(sum: Count, length: nat, duration: nat)
    requires duration > 0
    ensures Rates(sum, length, duration).mbps * duration * BytesPerMegabit <= sum.outb * length
  {
    var s := Rates(sum, length, duration);
    calc {
      s.mbps * duration * BytesPerMegabit;
      == (s.mbps * BytesPerMegabit) * duration;
      <= { MulMono(s.mbps * BytesPerMegabit, s.requestsPerSec * length, duration); }
         (s.requestsPerSec * length) * duration;
      == (s.requestsPerSec * duration) * length;
      <= { MulMono(s.requestsPerSec * duration, sum.outb, length); }
         sum.outb * length;
    }
  }

  lemma MulMono(a: nat, b: nat, k: nat)
    requires a <= b
    ensures a * k <= b * k
  {
  }

  /** What a task does before its loop: its connect either panics or succeeds. */
  datatype TaskTrace = ConnectFailed | Connected(rounds: seq<Round>)

  /** What the program does. `Waiting`: the driver never receives all
      messages (a task panicked before sending, or has not finished within the
      supplied rounds). `DivideByZero`: the rate line divides by a zero
      duration after the totals were printed. */
  datatype Outcome = Rejected | Waiting | DivideByZero(total: Count) | Report(total: Count, speed: Speed)

  /** A task sends its count once its loop has ended. */
  predicate Sends(t: TaskTrace, totltime: nat)
  {
    t.Connected? && Task(t.rounds, totltime).exit != Running
  }

  function SentCount(t: TaskTrace, totltime: nat): Count
  {
    if t.Connected? then Task(t.rounds, totltime).sum else Count(0, 0)
  }

  /** The task messages, in the order the tasks were spawned. */
  function Messages(tasks: seq<TaskTrace>, totltime: nat): (m: seq<Option<Count>>)
    ensures |m| == |tasks|
    ensures forall i :: 0 <= i < |tasks| ==> m[i] == Some(SentCount(tasks[i], totltime))
  {
    if tasks == [] then []
    else Messages(tasks[..|tasks| - 1], totltime) + [Some(SentCount(tasks[|tasks| - 1], totltime))]
  }

  function Indices(n: nat): (s: seq<nat>)
    ensures |s| == n && forall k :: 0 <= k < n ==> s[k] == k
  {
    seq(n, k => k)
  }

  /** The messages in arrival order `p`: the `k`-th message received is
      the one task `p[k]` sent. */
  function Pick(s: seq<Option<Count>>, p: seq<nat>): (r: seq<Option<Count>>)
    ensures |r| == |p|
  {
    if p == [] then [] else [if p[0] < |s| then s[p[0]] else None] + Pick(s, p[1..])
  }

  lemma {:induction false} PickConcat(s: seq<Option<Count>>, p: seq<nat>, q: seq<nat>)
    ensures Pick(s, p + q) == Pick(s, p) + Pick(s, q)
    decreases |p|
  {
    if p != [] {
      assert (p + q)[1..] == p[1..] + q;
      PickConcat(s, p[1..], q);
    } else {
      assert p + q == q;
    }
  }

  lemma MultisetMove<T>(a: seq<T>, y: seq<T>, b: seq<T>, c: seq<T>)
    requires multiset(c) == multiset(a + b)
    ensures multiset(y + c) == multiset(a + y + b)
  {
  }

  lemma PickSplit(s: seq<Option<Count>>, q: seq<nat>, j: nat)
    requires j < |q|
    ensures Pick(s, q) == Pick(s, q[..j]) + Pick(s, [q[j]]) + Pick(s, q[j + 1..])
  {
    assert q == q[..j] + [q[j]] + q[j + 1..];
    PickConcat(s, q[..j] + [q[j]], q[j + 1..]);
    PickConcat(s, q[..j], [q[j]]);
  }

  /** Reordering the indices reorders the picked messages. */
  lemma {:induction false} PickPermutation(s: seq<Option<Count>>, p: seq<nat>, q: seq<nat>)
    requires multiset(p) == multiset(q)
    ensures multiset(Pick(s, p)) == multiset(Pick(s, q))
    decreases |p|
  {
    if p != [] {
      var x := p[0];
      assert x in multiset(q) by { assert p == [x] + p[1..]; }
      var j :| 0 <= j < |q| && q[j] == x;
      var left, right := q[..j], q[j + 1..];
      RemoveMatching(p, 0, q, j);
      assert p[..0] + p[1..] == p[1..];
      PickPermutation(s, p[1..], left + right);
      PickConcat(s, left, right);
      var y := Pick(s, [x]);
      assert Pick(s, p) == y + Pick(s, p[1..]) by {
        assert p == [x] + p[1..];
        PickConcat(s, [x], p[1..]);
      }
      PickSplit(s, q, j);
      MultisetMove(Pick(s, left), y, Pick(s, right), Pick(s, p[1..]));
    }
  }

  lemma {:induction false} PickAt(s: seq<Option<Count>>, p: seq<nat>, k: nat)
    requires k < |p| && p[k] < |s|
    ensures Pick(s, p)[k] == s[p[k]]
    decreases k
  {
    if k > 0 {
      PickAt(s, p[1..], k - 1);
    }
  }

  /** Picking every index in order gives the messages back unchanged. */
  lemma PickIdentity(s: seq<Option<Count>>)
    ensures Pick(s, Indices(|s|)) == s
  {
    forall k | 0 <= k < |s| ensures Pick(s, Indices(|s|))[k] == s[k] {
      PickAt(s, Indices(|s|), k);
    }
  }

  /** The program after argument parsing: reject an oversized payload before
      spawning anything, run the tasks, merge the messages in arrival order
      `arrival` (a permutation of the task indices), and compute the rates. */
  method Benchmark(length: nat, duration: nat, tasks: seq<TaskTrace>, arrival: seq<nat>)
    returns (spawned: nat, out: Outcome)
    requires multiset(arrival) == multiset(Indices(|tasks|))
    ensures length > BufferSize ==> spawned == 0 && out == Rejected
    ensures length <= BufferSize ==> spawned == |tasks|
    ensures length <= BufferSize && (exists i :: 0 <= i < |tasks| && !Sends(tasks[i], duration * NanosPerSecond)) ==>
      out == Waiting
    ensures length <= BufferSize && (forall i :: 0 <= i < |tasks| ==> Sends(tasks[i], duration * NanosPerSecond)) ==>
      var total := Total(Messages(tasks, duration * NanosPerSecond));
      out == if duration == 0 then DivideByZero(total) else Report(total, Rates(total, length, duration))
  {
    if length > BufferSize {
      return 0, Rejected;
    }
    var totltime := duration * NanosPerSecond;
    var sums: seq<Option<Count>> := [];
    var allSend := true;
    for i := 0 to |tasks|
      invariant sums == Messages(tasks[..i], totltime)
      invariant allSend <==> forall j :: 0 <= j < i ==> Sends(tasks[j], totltime)
    {
      var sum := Count(0, 0);
      match tasks[i] {
        case ConnectFailed =>
          allSend := false;
        case Connected(rounds) =>
          var exit, used;
          sum, exit, used := RunTask(length, rounds, totltime);
          if exit == Running {
            allSend := false;
          }
      }
      assert sum == SentCount(tasks[i], totltime);
      assert tasks[..i + 1][..i] == tasks[..i];
      assert Messages(tasks[..i + 1], totltime) == Messages(tasks[..i], totltime) + [Some(sum)];
      sums := sums + [Some(sum)];
    }
    spawned := |tasks|;
    assert tasks[..|tasks|] == tasks;
    if !allSend {
      return spawned, Waiting;
    }
    PickPermutation(sums, Indices(|tasks|), arrival);
    var msgs := Pick(sums, arrival);
    PickIdentity(sums);
    TotalPermutation(msgs, sums);
    var total := Merge(msgs);
    if duration == 0 {
      return spawned, DivideByZero(total);
    }
    out := Report(total, Rates(total, length, duration));
  }
}
