/** The parallel check queue (`CCheckQueue`): one master and any number of workers that share a
    stack of checks under one mutex. Every critical section is one atomic step; the checks of a
    batch run outside the lock, one step each. */
module CheckQueue {
  import Numbers

  /** A verification job together with the answer it will give. */
  datatype Check = Check(id: nat, passes: bool)

  /** Where a thread is in Loop. */
  datatype Phase =
    | Outside                                               // not in Loop
    | Entering                                              // before its first critical section
    | Blocked                                               // inside cond.wait
    | Notified                                              // wait has ended, the lock is not yet back
    | Working(batch: seq<Check>, next: nat, fOk: bool)      // batch[..next] is done

  /** Thread 0 is the master. The last three fields are history: the checks added since the last
      Wait returned, those of them that ran, and those passed over after a failure. */
  datatype State = State(
    queue: seq<Check>,
    nIdle: int,
    nTotal: int,
    fAllOk: bool,
    nTodo: int,
    nBatchSize: nat,
    threads: seq<Phase>,
    added: multiset<Check>,
    ran: multiset<Check>,
    skipped: multiset<Check>)

  const MASTER := 0

  datatype Event =
    | Add(checks: seq<Check>, wake: nat)   // `wake` is the thread notify_one picks
    | StartWorker
    | StartWait
    | Lock(t: nat)                         // one critical section of Loop
    | RunCheck(t: nat)                     // one check outside the lock
    | SpuriousWake(t: nat)

  function Init(nBatchSize: nat): (s: State)
    ensures Inv(s)
  {
    var s := State([], 0, 0, true, 0, nBatchSize, [Outside], multiset{}, multiset{}, multiset{});
    assert forall c: Check :: ConservedAt(s, c);
    s
  }

  // --- Steps --------------------------------------------------------------------------------

  function Min(a: int, b: int): int { if a < b then a else b }
  function Max(a: int, b: int): int { if a < b then b else a }

  predicate WantsLock(p: Phase) {
    p.Entering? || p.Notified? || (p.Working? && p.next == |p.batch|)
  }

  predicate Enabled(s: State, e: Event) {
    && |s.threads| > 0
    && match e
       case Add(checks, wake) =>
         s.threads[MASTER] == Outside &&
         (|checks| == 1 ==> wake < |s.threads| &&
                            (s.threads[wake] == Blocked || forall p <- s.threads :: p != Blocked))
       case StartWorker => true
       case StartWait => s.threads[MASTER] == Outside
       case Lock(t) => t < |s.threads| && WantsLock(s.threads[t])
       case RunCheck(t) => t < |s.threads| && s.threads[t].Working? && s.threads[t].next < |s.threads[t].batch|
       case SpuriousWake(t) => t < |s.threads| && s.threads[t] == Blocked
  }

  function NotifyOne(threads: seq<Phase>, t: nat): seq<Phase>
    requires t < |threads|
  {
    if threads[t] == Blocked then threads[t := Notified] else threads
  }

  function NotifyAll(threads: seq<Phase>): seq<Phase> {
    seq(|threads|, i requires 0 <= i < |threads| => if threads[i] == Blocked then Notified else threads[i])
  }

  /** The last `n` entries of the stack in the order they are popped. */
  function Popped(queue: seq<Check>, n: nat): seq<Check>
    requires n <= |queue|
  {
    if n == 0 then [] else [queue[|queue| - 1]] + Popped(queue[..|queue| - 1], n - 1)
  }

  function BatchSize(s: State): int
    requires s.nTotal + s.nIdle + 1 > 0
  {
    Max(1, Min(s.nBatchSize, |s.queue| / (s.nTotal + s.nIdle + 1)))
  }

  /** A batch is a thread's share of the queue: the most checks that are neither over the limit nor, for every
      thread and one more, over the queue; but at least one. */
  lemma BatchIsShare(s: State)
    requires s.nTotal + s.nIdle + 1 > 0 && s.queue != []
    ensures var n, shares := BatchSize(s), s.nTotal + s.nIdle + 1;
            && 1 <= n <= |s.queue| && (n == 1 || (n <= s.nBatchSize && n * shares <= |s.queue|))
            && (n + 1 > s.nBatchSize || (n + 1) * shares > |s.queue|)
  {
    var q, shares := |s.queue|, s.nTotal + s.nIdle + 1;
    var share := q / shares;
    Numbers.DivBounds(q, shares);
    Numbers.DivAtMost(q, shares);
    var n := BatchSize(s);
    if n <= share {
      Numbers.MulMono(n, share, shares);
    }
    if n >= share {
      Numbers.MulMono(share + 1, n + 1, shares);
    }
  }

  /** The clean-up at the head of the critical section: account for the batch that just ended,
      for the first entry, or for the end of a wait. */
  function CleanUp(s: State, t: nat): State
    requires Enabled(s, Lock(t))
  {
    match s.threads[t]
    case Working(batch, _, fOk) =>
      var todo := s.nTodo - |batch|;
      s.(fAllOk := s.fAllOk && fOk, nTodo := todo,
         threads := if todo == 0 && t != MASTER then NotifyOne(s.threads, MASTER) else s.threads)
    case Entering => s.(nTotal := s.nTotal + 1)
    case _ => s.(nIdle := s.nIdle - 1)
  }

  /** The master leaves Loop with the verdict fAllOk at this step. */
  predicate Returns(s: State, t: nat)
    requires Enabled(s, Lock(t))
  {
    t == MASTER && s.queue == [] && CleanUp(s, t).nTodo == 0
  }

  /** The batch size divides by a positive number and never exceeds the queue. */
  predicate Lockable(s: State, t: nat) {
    && Enabled(s, Lock(t))
    && CleanUp(s, t).nTotal + CleanUp(s, t).nIdle + 1 > 0
    && (s.queue != [] ==> 1 <= BatchSize(CleanUp(s, t)) <= |s.queue|)
  }

  function LockStep(s: State, t: nat): State
    requires Lockable(s, t)
  {
    var c := CleanUp(s, t);
    if Returns(s, t) then
      c.(nTotal := c.nTotal - 1, fAllOk := true, threads := c.threads[t := Outside],
         added := multiset{}, ran := multiset{}, skipped := multiset{})
    else if c.queue == [] then
      c.(nIdle := c.nIdle + 1, threads := c.threads[t := Blocked])
    else
      var n := BatchSize(c);
      c.(queue := c.queue[..|c.queue| - n],
         threads := c.threads[t := Working(Popped(c.queue, n), 0, c.fAllOk)])
  }

  function RunStep(s: State, t: nat): State
    requires Enabled(s, RunCheck(t))
  {
    var Working(batch, next, fOk) := s.threads[t];
    var c := batch[next];
    if fOk then s.(threads := s.threads[t := Working(batch, next + 1, c.passes)], ran := s.ran + multiset{c})
    else s.(threads := s.threads[t := Working(batch, next + 1, false)], skipped := s.skipped + multiset{c})
  }

  function Next(s: State, e: Event): State
    requires Inv(s) && Enabled(s, e)
  {
    match e
    case Add(checks, wake) =>
      s.(queue := s.queue + checks, nTodo := s.nTodo + |checks|, added := s.added + multiset(checks),
         threads := if |checks| == 0 then s.threads
                    else if |checks| == 1 then NotifyOne(s.threads, wake)
                    else NotifyAll(s.threads))
    case StartWorker => s.(threads := s.threads + [Entering])
    case StartWait => s.(threads := s.threads[MASTER := Entering])
    case Lock(t) => LockReady(s, t); LockStep(s, t)
    case RunCheck(t) => RunStep(s, t)
    case SpuriousWake(t) => s.(threads := s.threads[t := Notified])
  }

  // --- The invariant ------------------------------------------------------------------------

  /** Sums a reading of a thread over all threads. */
  function Sum(threads: seq<Phase>, f: Phase -> nat): nat {
    if threads == [] then 0 else f(threads[0]) + Sum(threads[1..], f)
  }

  function InFlight(p: Phase): nat { if p.Working? then |p.batch| else 0 }

  function Idle(p: Phase): nat { if p.Blocked? || p.Notified? then 1 else 0 }

  function InLoop(p: Phase): nat { if p.Outside? || p.Entering? then 0 else 1 }

  function Occurrences(checks: seq<Check>, c: Check): nat { multiset(checks)[c] }

  /** How often a thread still has to look at `c`. */
  function Left(c: Check): Phase -> nat {
    (p: Phase) => if p.Working? && p.next <= |p.batch| then Occurrences(p.batch[p.next..], c) else 0
  }

  ghost predicate AllPass(m: multiset<Check>) {
    forall c <- m :: c.passes
  }

  predicate QueuePasses(queue: seq<Check>) {
    forall i | 0 <= i < |queue| :: queue[i].passes
  }

  /** The thread has seen no failure and will see none in its batch. */
  predicate Clean(p: Phase) {
    p.Working? ==> p.fOk && forall k | p.next <= k < |p.batch| :: p.batch[k].passes
  }

  predicate AllClean(threads: seq<Phase>) {
    forall i | 0 <= i < |threads| :: Clean(threads[i])
  }

  predicate Sound(p: Phase) {
    p.Working? ==> p.batch != [] && p.next <= |p.batch|
  }

  predicate AllSound(threads: seq<Phase>) {
    forall i | 0 <= i < |threads| :: Sound(threads[i])
  }

  /** The counters are what their comments in the source say. */
  predicate CountersOk(s: State) {
    && s.nTodo == |s.queue| + Sum(s.threads, InFlight)
    && s.nIdle == Sum(s.threads, Idle)
    && s.nTotal == Sum(s.threads, InLoop)
  }

  /** Occurrences of `c` that nobody has looked at yet. */
  function Pending(s: State, c: Check): nat {
    Occurrences(s.queue, c) + Sum(s.threads, Left(c))
  }

  /** No check is lost or duplicated. */
  ghost predicate Conserved(s: State) {
    forall c: Check :: ConservedAt(s, c)
  }

  predicate ConservedAt(s: State, c: Check) {
    s.added[c] == s.ran[c] + s.skipped[c] + Pending(s, c)
  }

  /** fAllOk, the verdicts in the threads and the pending checks together decide the answer. */
  ghost predicate VerdictOk(s: State) {
    && (AllPass(s.added) <==> s.fAllOk && QueuePasses(s.queue) && AllClean(s.threads))
    && (s.skipped != multiset{} ==> !AllPass(s.added))
  }

  ghost predicate Inv(s: State) {
    && |s.threads| > 0
    && AllSound(s.threads)
    && CountersOk(s)
    && Conserved(s)
    && VerdictOk(s)
    && (s.threads[MASTER] == Blocked ==> s.queue == [] && s.nTodo > 0)
  }

  // --- Sums over threads --------------------------------------------------------------------

  lemma {:induction false} SumUpdate(threads: seq<Phase>, t: nat, p: Phase, f: Phase -> nat)
    requires t < |threads|
    ensures Sum(threads[t := p], f) == Sum(threads, f) + f(p) - f(threads[t])
    ensures f(threads[t]) <= Sum(threads, f)
  {
    if t == 0 {
      assert threads[0 := p][1..] == threads[1..];
    } else {
      assert threads[t := p][1..] == threads[1..][t - 1 := p];
      SumUpdate(threads[1..], t - 1, p, f);
    }
  }

  lemma {:induction false} SumAppend(threads: seq<Phase>, p: Phase, f: Phase -> nat)
    ensures Sum(threads + [p], f) == Sum(threads, f) + f(p)
  {
    if threads == [] {
      assert threads + [p] == [p];
    } else {
      assert (threads + [p])[1..] == threads[1..] + [p];
      SumAppend(threads[1..], p, f);
    }
  }

  lemma {:induction false} SumSame(a: seq<Phase>, b: seq<Phase>, f: Phase -> nat)
    requires |a| == |b| && forall i | 0 <= i < |a| :: f(a[i]) == f(b[i])
    ensures Sum(a, f) == Sum(b, f)
  {
    if a != [] {
      SumSame(a[1..], b[1..], f);
    }
  }

  lemma {:induction false} SumFrom(threads: seq<Phase>, f: Phase -> nat) returns (t: nat)
    requires Sum(threads, f) > 0
    ensures t < |threads| && f(threads[t]) > 0
  {
    if f(threads[0]) > 0 {
      t := 0;
    } else {
      t := SumFrom(threads[1..], f);
      t := t + 1;
    }
  }

  lemma OccurrencesConcat(a: seq<Check>, b: seq<Check>, c: Check)
    ensures Occurrences(a + b, c) == Occurrences(a, c) + Occurrences(b, c)
  {
  }

  lemma {:induction false} PoppedLength(queue: seq<Check>, n: nat)
    requires n <= |queue|
    ensures |Popped(queue, n)| == n
  {
    if n > 0 {
      PoppedLength(queue[..|queue| - 1], n - 1);
    }
  }

  /** Popping loses and invents no check. */
  lemma {:induction false} PoppedCount(queue: seq<Check>, n: nat, c: Check)
    requires n <= |queue|
    ensures Occurrences(queue, c) == Occurrences(queue[..|queue| - n], c) + Occurrences(Popped(queue, n), c)
  {
    hide Occurrences;
    if n == 0 {
      assert queue[..|queue|] == queue;
      assert queue + [] == queue;
      OccurrencesConcat(queue, [], c);
    } else {
      var front, last := queue[..|queue| - 1], queue[|queue| - 1];
      PoppedCount(front, n - 1, c);
      assert queue == front + [last];
      OccurrencesConcat(front, [last], c);
      OccurrencesConcat([last], Popped(front, n - 1), c);
      assert front[..|front| - (n - 1)] == queue[..|queue| - n];
    }
  }

  lemma {:induction false} PoppedAt(queue: seq<Check>, n: nat, k: nat)
    requires k < n <= |queue|
    ensures |Popped(queue, n)| == n && Popped(queue, n)[k] == queue[|queue| - 1 - k]
  {
    PoppedLength(queue, n);
    if k > 0 {
      PoppedAt(queue[..|queue| - 1], n - 1, k - 1);
    }
  }

  lemma PassesApart(a: seq<Check>, b: seq<Check>)
    ensures QueuePasses(a + b) <==> QueuePasses(a) && QueuePasses(b)
  {
    if QueuePasses(a + b) {
      assert forall i | 0 <= i < |a| :: a[i] == (a + b)[i];
      assert forall i | 0 <= i < |b| :: b[i] == (a + b)[|a| + i];
    }
  }

  lemma CleanUpdate(threads: seq<Phase>, t: nat, p: Phase)
    requires t < |threads|
    ensures AllClean(threads[t := p]) && Clean(threads[t]) <==> AllClean(threads) && Clean(p)
  {
    var after := threads[t := p];
    assert after[t] == p;
    if AllClean(after) && Clean(threads[t]) {
      assert forall i | 0 <= i < |threads| :: i != t ==> threads[i] == after[i];
    }
  }

  lemma CleanAppend(threads: seq<Phase>)
    ensures AllClean(threads + [Entering]) <==> AllClean(threads)
  {
    if AllClean(threads + [Entering]) {
      assert forall i | 0 <= i < |threads| :: threads[i] == (threads + [Entering])[i];
    }
  }

  // --- Every step keeps the invariant -------------------------------------------------------

  lemma LockReady(s: State, t: nat)
    requires Inv(s) && Enabled(s, Lock(t))
    ensures Lockable(s, t)
  {
    SumUpdate(s.threads, t, Outside, Idle);
    var c := CleanUp(s, t);
    if s.queue != [] {
      Numbers.DivAtMost(|s.queue|, c.nTotal + c.nIdle + 1);
    }
  }

  /** Waits that end change no sum. */
  lemma NotifySums(a: seq<Phase>, b: seq<Phase>)
    requires |a| == |b|
    requires forall i | 0 <= i < |a| :: a[i] == b[i] || (a[i] == Blocked && b[i] == Notified)
    ensures Sum(a, InFlight) == Sum(b, InFlight) && Sum(a, Idle) == Sum(b, Idle) && Sum(a, InLoop) == Sum(b, InLoop)
    ensures forall c: Check :: Sum(a, Left(c)) == Sum(b, Left(c))
    ensures AllClean(a) <==> AllClean(b)
    ensures AllSound(a) <==> AllSound(b)
  {
    SumSame(a, b, InFlight);
    SumSame(a, b, Idle);
    SumSame(a, b, InLoop);
    forall c: Check
      ensures Sum(a, Left(c)) == Sum(b, Left(c))
    {
      SumSame(a, b, Left(c));
    }
  }

  /** One thread changes phase: how every sum changes. */
  lemma MoveSums(threads: seq<Phase>, t: nat, p: Phase)
    requires t < |threads|
    ensures Sum(threads[t := p], InFlight) == Sum(threads, InFlight) + InFlight(p) - InFlight(threads[t])
    ensures Sum(threads[t := p], Idle) == Sum(threads, Idle) + Idle(p) - Idle(threads[t])
    ensures Sum(threads[t := p], InLoop) == Sum(threads, InLoop) + InLoop(p) - InLoop(threads[t])
    ensures forall c: Check :: Sum(threads[t := p], Left(c)) == Sum(threads, Left(c)) + Left(c)(p) - Left(c)(threads[t])
  {
    SumUpdate(threads, t, p, InFlight);
    SumUpdate(threads, t, p, Idle);
    SumUpdate(threads, t, p, InLoop);
    forall c: Check
      ensures Sum(threads[t := p], Left(c)) == Sum(threads, Left(c)) + Left(c)(p) - Left(c)(threads[t])
    {
      SumUpdate(threads, t, p, Left(c));
    }
  }

  lemma {:induction false} NothingInFlight(threads: seq<Phase>)
    requires AllSound(threads) && Sum(threads, InFlight) == 0
    ensures forall i | 0 <= i < |threads| :: !threads[i].Working?
    ensures forall c: Check :: Sum(threads, Left(c)) == 0
  {
    forall i | 0 <= i < |threads|
      ensures !threads[i].Working?
    {
      SumUpdate(threads, i, Outside, InFlight);
    }
    forall c: Check
      ensures Sum(threads, Left(c)) == 0
    {
      if Sum(threads, Left(c)) > 0 {
        var t := SumFrom(threads, Left(c));
      }
    }
  }

  lemma AddKeepsInv(s: State, checks: seq<Check>, wake: nat)
    requires Inv(s) && Enabled(s, Add(checks, wake))
    ensures Inv(Next(s, Add(checks, wake)))
  {
    var n := Next(s, Add(checks, wake));
    NotifySums(s.threads, n.threads);
    assert forall c: Check :: Occurrences(n.queue, c) == Occurrences(s.queue, c) + multiset(checks)[c];
    PassesApart(s.queue, checks);
    assert AllPass(n.added) <==> AllPass(s.added) && QueuePasses(checks);
    assert forall c: Check :: ConservedAt(s, c) ==> ConservedAt(n, c);
  }

  lemma StartWorkerKeepsInv(s: State)
    requires Inv(s)
    ensures Inv(Next(s, StartWorker))
  {
    CleanAppend(s.threads);
    SumAppend(s.threads, Entering, InFlight);
    SumAppend(s.threads, Entering, Idle);
    SumAppend(s.threads, Entering, InLoop);
    forall c: Check
      ensures ConservedAt(Next(s, StartWorker), c)
    {
      assert ConservedAt(s, c);
      SumAppend(s.threads, Entering, Left(c));
    }
  }

  lemma StartWaitKeepsInv(s: State)
    requires Inv(s) && Enabled(s, StartWait)
    ensures Inv(Next(s, StartWait))
  {
    MoveSums(s.threads, MASTER, Entering);
    assert forall c: Check :: ConservedAt(s, c) ==> ConservedAt(Next(s, StartWait), c);
  }

  lemma RunConserves(s: State, t: nat, c: Check)
    requires Enabled(s, RunCheck(t)) && ConservedAt(s, c)
    ensures ConservedAt(RunStep(s, t), c)
  {
    hide Sum, Left;
    SumUpdate(s.threads, t, RunStep(s, t).threads[t], Left(c));
    LeftStep(s.threads[t], RunStep(s, t).threads[t], c);
  }

  lemma LeftStep(p: Phase, q: Phase, c: Check)
    requires p.Working? && p.next < |p.batch| && q.Working? && q.batch == p.batch && q.next == p.next + 1
    ensures Left(c)(p) == Left(c)(q) + multiset{p.batch[p.next]}[c]
  {
    var first, rest := [p.batch[p.next]], p.batch[p.next + 1..];
    assert p.batch[p.next..] == first + rest;
    OccurrencesConcat(first, rest, c);
  }

  lemma RunKeepsVerdict(s: State, t: nat)
    requires Inv(s) && Enabled(s, RunCheck(t))
    ensures VerdictOk(RunStep(s, t))
  {
    var n := RunStep(s, t);
    var p := s.threads[t];
    assert Clean(p) <==> p.fOk && Clean(n.threads[t]);
    CleanUpdate(s.threads, t, n.threads[t]);
    if !p.fOk {
      assert !AllClean(s.threads);
      assert !Clean(n.threads[t]);
    }
  }

  lemma RunKeepsCounters(s: State, t: nat)
    requires CountersOk(s) && AllSound(s.threads) && Enabled(s, RunCheck(t))
    ensures CountersOk(RunStep(s, t)) && AllSound(RunStep(s, t).threads)
  {
    var n := RunStep(s, t);
    SumUpdate(s.threads, t, n.threads[t], InFlight);
    SumUpdate(s.threads, t, n.threads[t], Idle);
    SumUpdate(s.threads, t, n.threads[t], InLoop);
  }

  lemma RunKeepsInv(s: State, t: nat)
    requires Inv(s) && Enabled(s, RunCheck(t))
    ensures Inv(RunStep(s, t))
  {
    RunKeepsCounters(s, t);
    RunKeepsVerdict(s, t);
    forall c: Check
      ensures ConservedAt(RunStep(s, t), c)
    {
      RunConserves(s, t, c);
    }
  }

  lemma WakeKeepsInv(s: State, t: nat)
    requires Inv(s) && Enabled(s, SpuriousWake(t))
    ensures Inv(Next(s, SpuriousWake(t)))
  {
    NotifySums(s.threads, Next(s, SpuriousWake(t)).threads);
    assert forall c: Check :: ConservedAt(s, c) ==> ConservedAt(Next(s, SpuriousWake(t)), c);
  }

  /** The clean-up changes no thread but a master that waits. */
  lemma CleanUpThreads(s: State, t: nat)
    requires |s.threads| > 0 && Enabled(s, Lock(t))
    ensures var c := CleanUp(s, t);
            && |c.threads| == |s.threads| && c.threads[t] == s.threads[t]
            && (forall i | 0 <= i < |s.threads| ::
                  c.threads[i] == s.threads[i] || (s.threads[i] == Blocked && c.threads[i] == Notified))
  {
  }

  /** The state in the middle of a critical section, with the running thread taken out of account. */
  function Detached(s: State, t: nat): State
    requires Enabled(s, Lock(t))
  {
    CleanUp(s, t).(threads := CleanUp(s, t).threads[t := Outside])
  }

  lemma DetachedCounters(s: State, t: nat)
    requires CountersOk(s) && AllSound(s.threads) && Enabled(s, Lock(t))
    ensures CountersOk(Detached(s, t).(nTotal := Detached(s, t).nTotal - 1)) && AllSound(Detached(s, t).threads)
  {
    var c := CleanUp(s, t);
    CleanUpThreads(s, t);
    NotifySums(s.threads, c.threads);
    MoveSums(c.threads, t, Outside);
  }

  lemma DetachedConserves(s: State, t: nat, k: Check)
    requires ConservedAt(s, k) && Enabled(s, Lock(t))
    ensures ConservedAt(Detached(s, t), k)
  {
    var c := CleanUp(s, t);
    CleanUpThreads(s, t);
    SumSame(s.threads, c.threads, Left(k));
    SumUpdate(c.threads, t, Outside, Left(k));
  }

  lemma DetachedVerdict(s: State, t: nat)
    requires VerdictOk(s) && Enabled(s, Lock(t))
    ensures VerdictOk(Detached(s, t))
  {
    var c := CleanUp(s, t);
    CleanUpThreads(s, t);
    NotifySums(s.threads, c.threads);
    CleanUpdate(c.threads, t, Outside);
  }

  /** From the middle of a critical section, the thread leaves, waits or takes a batch. */
  lemma LockStepFromDetached(s: State, t: nat)
    requires Lockable(s, t)
    ensures var d, n := Detached(s, t), LockStep(s, t);
            if Returns(s, t) then
              n == d.(nTotal := d.nTotal - 1, fAllOk := true,
                      added := multiset{}, ran := multiset{}, skipped := multiset{})
            else if s.queue == [] then
              n == d.(nIdle := d.nIdle + 1, threads := d.threads[t := Blocked])
            else
              && 1 <= BatchSize(CleanUp(s, t)) <= |d.queue|
              && n == Taken(d, t, BatchSize(CleanUp(s, t)))
  {
    var c := CleanUp(s, t);
    CleanUpThreads(s, t);
    assert c.threads[t := Outside][t := Blocked] == c.threads[t := Blocked];
    if s.queue != [] {
      var p := Working(Popped(c.queue, BatchSize(c)), 0, c.fAllOk);
      assert c.threads[t := Outside][t := p] == c.threads[t := p];
    }
  }

  function Taken(d: State, t: nat, b: nat): State
    requires t < |d.threads| && b <= |d.queue|
  {
    d.(queue := d.queue[..|d.queue| - b], threads := d.threads[t := Working(Popped(d.queue, b), 0, d.fAllOk)])
  }

  lemma TakenKeepsCounters(d: State, t: nat, b: nat)
    requires t < |d.threads| && d.threads[t] == Outside && 1 <= b <= |d.queue|
    requires CountersOk(d.(nTotal := d.nTotal - 1)) && AllSound(d.threads)
    ensures CountersOk(Taken(d, t, b)) && AllSound(Taken(d, t, b).threads)
  {
    MoveSums(d.threads, t, Taken(d, t, b).threads[t]);
    PoppedLength(d.queue, b);
  }

  lemma TakenConserves(d: State, t: nat, b: nat, k: Check)
    requires t < |d.threads| && d.threads[t] == Outside && b <= |d.queue| && ConservedAt(d, k)
    ensures ConservedAt(Taken(d, t, b), k)
  {
    hide Sum, Left, Popped, Occurrences;
    SumUpdate(d.threads, t, Working(Popped(d.queue, b), 0, d.fAllOk), Left(k));
    PoppedCount(d.queue, b, k);
    LeftWhole(Popped(d.queue, b), d.fAllOk, k);
  }

  lemma LeftWhole(batch: seq<Check>, fOk: bool, k: Check)
    ensures Left(k)(Working(batch, 0, fOk)) == Occurrences(batch, k) && Left(k)(Outside) == 0
  {
    assert batch[0..] == batch;
  }

  lemma TakenKeepsVerdict(d: State, t: nat, b: nat)
    requires t < |d.threads| && d.threads[t] == Outside && b <= |d.queue| && VerdictOk(d)
    ensures VerdictOk(Taken(d, t, b))
  {
    CleanUpdate(d.threads, t, Taken(d, t, b).threads[t]);
    TakenPasses(d.queue, b);
  }

  lemma TakenPasses(queue: seq<Check>, n: nat)
    requires n <= |queue|
    ensures QueuePasses(queue) <==> QueuePasses(queue[..|queue| - n]) && QueuePasses(Popped(queue, n))
  {
    PoppedLength(queue, n);
    forall k | 0 <= k < n
      ensures Popped(queue, n)[k] == queue[|queue| - 1 - k]
    {
      PoppedAt(queue, n, k);
    }
    if QueuePasses(queue[..|queue| - n]) && QueuePasses(Popped(queue, n)) {
      forall i | 0 <= i < |queue|
        ensures queue[i].passes
      {
        if i < |queue| - n {
          assert queue[..|queue| - n][i].passes;
        } else {
          assert Popped(queue, n)[|queue| - 1 - i].passes;
        }
      }
    }
  }

  /** The master is never left waiting for work that is already done. */
  lemma LockWakesMaster(s: State, t: nat)
    requires Inv(s) && Lockable(s, t)
    ensures LockStep(s, t).threads[MASTER] == Blocked ==> LockStep(s, t).queue == [] && LockStep(s, t).nTodo > 0
  {
    hide Conserved, VerdictOk, AllSound, Popped, BatchSize, Sum;
    SumUpdate(s.threads, t, Outside, InFlight);
  }

  lemma LockKeepsInv(s: State, t: nat)
    requires Inv(s) && Enabled(s, Lock(t))
    ensures Inv(Next(s, Lock(t)))
  {
    LockReady(s, t);
    LockWakesMaster(s, t);
    DetachedCounters(s, t);
    DetachedVerdict(s, t);
    forall k: Check
      ensures ConservedAt(Detached(s, t), k)
    {
      assert ConservedAt(s, k);
      DetachedConserves(s, t, k);
    }
    LockStepFromDetached(s, t);
    LockOutcomeKeepsInv(s, t, Detached(s, t));
  }

  lemma LockOutcomeKeepsInv(s: State, t: nat, d: State)
    requires Lockable(s, t) && d == Detached(s, t)
    requires CountersOk(d.(nTotal := d.nTotal - 1)) && AllSound(d.threads) && Conserved(d) && VerdictOk(d)
    ensures CountersOk(LockStep(s, t)) && AllSound(LockStep(s, t).threads)
    ensures Conserved(LockStep(s, t)) && VerdictOk(LockStep(s, t))
  {
    hide Sum, Left, Popped, BatchSize, LockStep;
    LockStepFromDetached(s, t);
    if Returns(s, t) {
      NothingInFlight(d.threads);
    } else if s.queue == [] {
      BlockedKeeps(d, t);
    } else {
      TakenKeeps(d, t, BatchSize(CleanUp(s, t)));
    }
  }

  /** A thread that found no work goes to sleep. */
  lemma BlockedKeeps(d: State, t: nat)
    requires t < |d.threads| && d.threads[t] == Outside
    requires CountersOk(d.(nTotal := d.nTotal - 1)) && AllSound(d.threads) && Conserved(d) && VerdictOk(d)
    ensures var n := d.(nIdle := d.nIdle + 1, threads := d.threads[t := Blocked]);
            CountersOk(n) && AllSound(n.threads) && Conserved(n) && VerdictOk(n)
  {
    hide Sum;
    MoveSums(d.threads, t, Blocked);
    CleanUpdate(d.threads, t, Blocked);
    var n := d.(nIdle := d.nIdle + 1, threads := d.threads[t := Blocked]);
    forall k: Check
      ensures ConservedAt(n, k)
    {
      assert ConservedAt(d, k);
    }
  }

  /** A thread takes a batch. */
  lemma TakenKeeps(d: State, t: nat, b: nat)
    requires t < |d.threads| && d.threads[t] == Outside && 1 <= b <= |d.queue|
    requires CountersOk(d.(nTotal := d.nTotal - 1)) && AllSound(d.threads) && Conserved(d) && VerdictOk(d)
    ensures CountersOk(Taken(d, t, b)) && AllSound(Taken(d, t, b).threads)
    ensures Conserved(Taken(d, t, b)) && VerdictOk(Taken(d, t, b))
  {
    hide CountersOk, AllSound, VerdictOk, ConservedAt, Taken;
    TakenKeepsCounters(d, t, b);
    TakenKeepsVerdict(d, t, b);
    forall k: Check
      ensures ConservedAt(Taken(d, t, b), k)
    {
      assert ConservedAt(d, k);
      TakenConserves(d, t, b, k);
    }
  }


  lemma NextKeepsInv(s: State, e: Event)
    requires Inv(s) && Enabled(s, e)
    ensures Inv(Next(s, e))
  {
    match e
    case Add(checks, wake) => AddKeepsInv(s, checks, wake);
    case StartWorker => StartWorkerKeepsInv(s);
    case StartWait => StartWaitKeepsInv(s);
    case Lock(t) => LockKeepsInv(s, t);
    case RunCheck(t) => RunKeepsInv(s, t);
    case SpuriousWake(t) => WakeKeepsInv(s, t);
  }

  // --- Whole runs ---------------------------------------------------------------------------

  ghost predicate CanRun(s: State, events: seq<Event>)
    requires Inv(s)
    decreases |events|
  {
    events == [] ||
    (Enabled(s, events[0]) && (NextKeepsInv(s, events[0]); CanRun(Next(s, events[0]), events[1..])))
  }

  /** The state an interleaving leads to. Its contract is that every reachable state is consistent. */
  ghost function EndOf(s: State, events: seq<Event>): (end: State)
    requires Inv(s) && CanRun(s, events)
    ensures Inv(end)
    decreases |events|
  {
    if events == [] then s
    else NextKeepsInv(s, events[0]); EndOf(Next(s, events[0]), events[1..])
  }

  /** In every interleaving from an unused queue: the counter counts what is queued or in flight,
      no check runs more often than it was added, and a waiting master is owed a batch by a worker. */
  lemma EveryReachableState(nBatchSize: nat, events: seq<Event>)
    requires CanRun(Init(nBatchSize), events)
    ensures var s := EndOf(Init(nBatchSize), events);
            && s.nTodo == |s.queue| + Sum(s.threads, InFlight)
            && s.ran <= s.added
            && (s.threads[MASTER] == Blocked ==>
                  exists t | 0 < t < |s.threads| :: s.threads[t].Working?)
  {
    var s := EndOf(Init(nBatchSize), events);
    assert forall c: Check :: ConservedAt(s, c) ==> s.ran[c] <= s.added[c];
    if s.threads[MASTER] == Blocked {
      var t := SumFrom(s.threads, InFlight);
    }
  }

  /** Wait returns the conjunction of everything added since the last Wait, although a failure
      makes the threads pass over checks; and if it returns true, every check has run. */
  lemma WaitVerdict(s: State)
    requires Inv(s) && Enabled(s, Lock(MASTER)) && Returns(s, MASTER)
    ensures CleanUp(s, MASTER).fAllOk <==> AllPass(s.added)
    ensures CleanUp(s, MASTER).fAllOk ==> s.ran == s.added
    ensures Next(s, Lock(MASTER)).added == multiset{} && Next(s, Lock(MASTER)).fAllOk
    ensures forall p <- Next(s, Lock(MASTER)).threads :: !p.Working?
  {
    DetachedCounters(s, MASTER);
    DetachedVerdict(s, MASTER);
    LockReady(s, MASTER);
    LockStepFromDetached(s, MASTER);
    var d := Detached(s, MASTER);
    NothingInFlight(d.threads);
    forall c: Check
      ensures s.added[c] == s.ran[c] + s.skipped[c]
    {
      assert ConservedAt(s, c);
      DetachedConserves(s, MASTER, c);
    }
    if CleanUp(s, MASTER).fAllOk {
      assert s.skipped == multiset{};
      assert s.ran == s.added;
    }
  }

  /** The checks handed to Add by a run. */
  ghost function AddedBy(events: seq<Event>): multiset<Check> {
    if events == [] then multiset{}
    else AddedNow(events[0]) + AddedBy(events[1..])
  }

  function AddedNow(e: Event): multiset<Check> {
    if e.Add? then multiset(e.checks) else multiset{}
  }

  lemma NextAdds(s: State, e: Event)
    requires Inv(s) && Enabled(s, e) && !(e == Lock(MASTER) && Returns(s, MASTER))
    ensures Next(s, e).added == s.added + AddedNow(e)
  {
    hide CountersOk, AllSound, Conserved, VerdictOk, BatchSize, Popped, NotifyOne, NotifyAll;
  }

  lemma SumsAssociate(a: multiset<Check>, b: multiset<Check>, c: multiset<Check>)
    ensures a + b + c == a + (b + c) && a + multiset{} == a
  {
  }

  /** Wait does not return during the run. */
  ghost predicate NoReturn(s: State, events: seq<Event>)
    requires Inv(s) && CanRun(s, events)
    decreases |events|
  {
    events == [] ||
    (NextKeepsInv(s, events[0]);
     (events[0].Lock? ==> !Returns(s, events[0].t)) && NoReturn(Next(s, events[0]), events[1..]))
  }

  lemma {:induction false} AddedSinceReturn(s: State, events: seq<Event>)
    requires Inv(s) && CanRun(s, events) && NoReturn(s, events)
    ensures EndOf(s, events).added == s.added + AddedBy(events)
    decreases |events|
  {
    hide Inv, Next, AddedNow, Returns;
    if events == [] {
      SumsAssociate(s.added, multiset{}, multiset{});
    } else {
      NextKeepsInv(s, events[0]);
      NextAdds(s, events[0]);
      AddedSinceReturn(Next(s, events[0]), events[1..]);
      SumsAssociate(s.added, AddedNow(events[0]), AddedBy(events[1..]));
    }
  }

  // --- Progress -----------------------------------------------------------------------------

  /** While the master is in Wait, some thread can take a step. */
  lemma NoDeadlock(s: State) returns (e: Event)
    requires Inv(s) && s.threads[MASTER] != Outside
    ensures Enabled(s, e) && (e.Lock? || e.RunCheck?)
  {
    var t := MASTER;
    if s.threads[MASTER] == Blocked {
      t := SumFrom(s.threads, InFlight);
    }
    e := if WantsLock(s.threads[t]) then Lock(t) else RunCheck(t);
  }

  function Potential(p: Phase): nat {
    match p
    case Outside => 0
    case Blocked => 0
    case Entering => 1
    case Notified => 1
    case Working(batch, next, _) => if next <= |batch| then 3 + |batch| - next else 3
  }

  /** What is left to do, counted so that every step of a thread uses some of it up. */
  function Measure(s: State): nat {
    5 * |s.queue| + Sum(s.threads, Potential)
  }

  lemma StepsUsePotential(s: State, e: Event)
    requires Inv(s) && Enabled(s, e) && (e.Lock? || e.RunCheck?)
    ensures Measure(Next(s, e)) < Measure(s)
  {
    if e.RunCheck? {
      SumUpdate(s.threads, e.t, RunStep(s, e.t).threads[e.t], Potential);
    } else {
      LockReady(s, e.t);
      LockUsesPotential(s, e.t);
    }
  }

  lemma LockUsesPotential(s: State, t: nat)
    requires Lockable(s, t)
    ensures Measure(LockStep(s, t)) < Measure(s)
  {
    DetachedPotential(s, t);
    LockStepFromDetached(s, t);
    var d := Detached(s, t);
    if !Returns(s, t) {
      if s.queue == [] {
        SumUpdate(d.threads, t, Blocked, Potential);
      } else {
        TakenUsesPotential(d, t, BatchSize(CleanUp(s, t)));
      }
    }
  }

  lemma TakenUsesPotential(d: State, t: nat, b: nat)
    requires t < |d.threads| && d.threads[t] == Outside && 1 <= b <= |d.queue|
    ensures Measure(Taken(d, t, b)) <= Measure(d)
  {
    SumUpdate(d.threads, t, Working(Popped(d.queue, b), 0, d.fAllOk), Potential);
    PoppedLength(d.queue, b);
  }

  lemma DetachedPotential(s: State, t: nat)
    requires Enabled(s, Lock(t))
    ensures Sum(Detached(s, t).threads, Potential) < Sum(s.threads, Potential)
  {
    var c := CleanUp(s, t);
    CleanUpThreads(s, t);
    if c.threads != s.threads {
      SumUpdate(s.threads, MASTER, Notified, Potential);
    }
    SumUpdate(c.threads, t, Outside, Potential);
  }

  /** Left to themselves the threads take boundedly many steps, whatever the schedule, and a run that
      cannot go on has brought the master out of Wait: Wait terminates. */
  lemma {:induction false} WaitTerminates(s: State, events: seq<Event>)
    requires Inv(s) && CanRun(s, events)
    requires forall e <- events :: e.Lock? || e.RunCheck?
    ensures |events| <= Measure(s)
    ensures (forall e: Event :: e.Lock? || e.RunCheck? ==> !Enabled(EndOf(s, events), e)) ==>
              EndOf(s, events).threads[MASTER] == Outside
    decreases |events|
  {
    if events == [] {
      if s.threads[MASTER] != Outside {
        var e := NoDeadlock(s);
        assert Enabled(s, e);
      }
    } else {
      NextKeepsInv(s, events[0]);
      StepsUsePotential(s, events[0]);
      WaitTerminates(Next(s, events[0]), events[1..]);
    }
  }
}
