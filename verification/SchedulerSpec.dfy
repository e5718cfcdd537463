/** What the task list code of cpu/task.c and cpu/timer.c does to the two queues, as a state machine
    on values: one step per timer tick, per call of sleep and per call of fork.

    The pointer code itself is in Scheduler.dfy; every method there is proved to take exactly one of
    these steps. Tasks are an arbitrary type T, so the theorems hold of task objects and of pids alike. */
module SchedulerSpec {
  import opened Machine

  /** The ready queue from head to tail, the position of the running task in it, the sleep queue from
      head to tail, the end_of_sleep field of each task, and the two counters. The C type of tick,
      end_of_sleep and next_pid is a 32-bit unsigned integer. */
  datatype State<T> =
    State(ready: seq<T>, pos: nat, sleeping: seq<T>, until: map<T, nat>, tick: nat, nextPid: nat)

  datatype Event<T> = Tick | Sleep(epochs: nat) | Fork(child: T)

  // ---------------------------------------------------------------------------------------------
  // Invariant

  function Population<T>(s: State<T>): multiset<T> {
    multiset(s.ready) + multiset(s.sleeping)
  }

  function Size<T>(s: State<T>): nat {
    |s.ready| + |s.sleeping|
  }

  ghost predicate NoRepeats<T>(p: multiset<T>) {
    forall t :: t in p ==> p[t] == 1
  }

  /** No task occurs twice in the two queues taken together, the running task is in the ready queue,
      and end_of_sleep is 0 for exactly the tasks of the ready queue. */
  ghost predicate Inv<T>(s: State<T>) {
    && s.pos < |s.ready|
    && s.tick < WORD
    && NoRepeats(Population(s))
    && (forall t :: t in s.until ==> t in s.ready || t in s.sleeping)
    && (forall t :: t in s.ready ==> t in s.until && s.until[t] == 0)
    && (forall t :: t in s.sleeping ==> t in s.until && 0 < s.until[t] < WORD)
  }

  function Current<T>(s: State<T>): T
    requires s.pos < |s.ready|
  {
    s.ready[s.pos]
  }

  // ---------------------------------------------------------------------------------------------
  // Steps

  /** Has the time of task t passed? A task without an end_of_sleep never expires. */
  predicate Expired<T(==)>(t: T, until: map<T, nat>, tick: nat) {
    t in until && tick > until[t]
  }

  /** The first sleeper whose time has passed, or the length of the queue. */
  function FirstExpired<T(==)>(q: seq<T>, until: map<T, nat>, tick: nat): (k: nat)
    ensures k <= |q|
    ensures k < |q| ==> Expired(q[k], until, tick)
    ensures forall i :: 0 <= i < k ==> !Expired(q[i], until, tick)
  {
    if q == [] || Expired(q[0], until, tick) then 0
    else 1 + FirstExpired(q[1..], until, tick)
  }

  /** The queue q with the task at position k taken out. */
  function Without<T>(q: seq<T>, k: nat): (r: seq<T>)
    requires k < |q|
    ensures |r| == |q| - 1
  {
    q[..k] + q[k + 1..]
  }

  /** The sleeper at position k moves to the tail of the ready queue. */
  function WakeAt<T(==)>(s: State<T>, k: nat): State<T>
    requires k < |s.sleeping|
  {
    var t := s.sleeping[k];
    s.(ready := s.ready + [t], sleeping := Without(s.sleeping, k), until := s.until[t := 0])
  }

  /** At most one sleeper is woken at a time, the first expired one. */
  function Wake<T(==)>(s: State<T>): State<T> {
    var k := FirstExpired(s.sleeping, s.until, s.tick);
    if k == |s.sleeping| then s else WakeAt(s, k)
  }

  /** The running task gives way to its successor, cyclically. */
  function Rotate<T>(s: State<T>): State<T>
    requires s.pos < |s.ready|
  {
    s.(pos := if s.pos + 1 == |s.ready| then 0 else s.pos + 1)
  }

  function Advance<T>(s: State<T>): State<T> {
    s.(tick := Wrap(s.tick + 1))
  }

  function TickStep<T(==)>(s: State<T>): State<T>
    requires s.pos < |s.ready|
  {
    if s.nextPid == 1 then Advance(s) else Rotate(Wake(Advance(s)))
  }

  function Deadline<T>(s: State<T>, epochs: nat): nat {
    Wrap(s.tick + epochs)
  }

  /** The running task leaves the ready queue for the tail of the sleep queue, and its successor runs.
      The last ready task is not allowed to sleep. A task whose deadline is 0 does not count as sleeping when
      the switch looks at it: it stays in the ready queue, and the sleep queue runs on into that queue. */
  function SleepStep<T(==)>(s: State<T>, epochs: nat): State<T>
    requires s.pos < |s.ready|
  {
    if |s.ready| == 1 then s
    else if Deadline(s, epochs) == 0 then
      Rotate(s).(sleeping := s.sleeping + s.ready[s.pos..])
    else
      s.(ready := Without(s.ready, s.pos),
         pos := if s.pos + 1 == |s.ready| then 0 else s.pos,
         sleeping := s.sleeping + [Current(s)],
         until := s.until[Current(s) := Deadline(s, epochs)])
  }

  function ForkStep<T(==)>(s: State<T>, child: T): State<T> {
    s.(ready := s.ready + [child], until := s.until[child := 0], nextPid := Wrap(s.nextPid + 1))
  }

  function Step<T(==)>(s: State<T>, e: Event<T>): (t: State<T>)
    requires s.pos < |s.ready|
    ensures t.pos < |t.ready|
    ensures t.nextPid == if e.Fork? then Wrap(s.nextPid + 1) else s.nextPid
  {
    match e
    case Tick => TickStep(s)
    case Sleep(epochs) => SleepStep(s, epochs)
    case Fork(child) => ForkStep(s, child)
  }

  /** When a step keeps the two queues apart: a sleeper needs a deadline different from 0, the value
      that means "not sleeping", and a forked task is a new object. */
  predicate Enabled<T(==)>(s: State<T>, e: Event<T>) {
    match e
    case Tick => true
    case Sleep(epochs) => |s.ready| == 1 || Deadline(s, epochs) != 0
    case Fork(child) => child !in Population(s)
  }

  // ---------------------------------------------------------------------------------------------
  // Every step keeps the invariant and the population

  function ChildrenOf<T>(e: Event<T>): multiset<T> {
    match e
    case Fork(child) => multiset{child}
    case _ => multiset{}
  }

  /** In a queue without repetitions, taking out position k takes out its task altogether. */
  lemma TakeOut<T>(q: seq<T>, k: nat, others: multiset<T>)
    requires k < |q| && NoRepeats(multiset(q) + others)
    ensures multiset(q) == multiset(Without(q, k)) + multiset{q[k]}
    ensures q[k] !in others && q[k] !in Without(q, k)
    ensures forall t :: t in q <==> t in Without(q, k) || t == q[k]
  {
    assert q == q[..k] + [q[k]] + q[k + 1..];
    assert (multiset(q) + others)[q[k]] == 1;
    assert q[k] !in multiset(Without(q, k));
  }

  lemma WakeAtKeeps<T>(s: State<T>, k: nat)
    requires Inv(s) && k < |s.sleeping|
    ensures Inv(WakeAt(s, k)) && Population(WakeAt(s, k)) == Population(s)
  {
    assert Population(s) == multiset(s.sleeping) + multiset(s.ready);
    TakeOut(s.sleeping, k, multiset(s.ready));
    assert Population(WakeAt(s, k)) == Population(s);
  }

  lemma TickKeeps<T>(s: State<T>)
    requires Inv(s)
    ensures Inv(TickStep(s)) && Population(TickStep(s)) == Population(s)
  {
    assert Population(Advance(s)) == Population(s);
    assert Inv(Advance(s));
    var w := Wake(Advance(s));
    var k := FirstExpired(s.sleeping, s.until, Advance(s).tick);
    if k < |s.sleeping| {
      WakeAtKeeps(Advance(s), k);
    }
    assert Inv(w) && Population(w) == Population(s);
    assert Population(Rotate(w)) == Population(w);
  }

  lemma SleepKeeps<T>(s: State<T>, epochs: nat)
    requires Inv(s) && Enabled(s, Sleep(epochs))
    ensures Inv(SleepStep(s, epochs)) && Population(SleepStep(s, epochs)) == Population(s)
  {
    if |s.ready| != 1 {
      TakeOut(s.ready, s.pos, multiset(s.sleeping));
      assert Population(SleepStep(s, epochs)) == Population(s);
    }
  }

  lemma ForkKeeps<T>(s: State<T>, child: T)
    requires Inv(s) && Enabled(s, Fork(child))
    ensures Inv(ForkStep(s, child)) && Population(ForkStep(s, child)) == Population(s) + multiset{child}
  {
    var t := ForkStep(s, child);
    assert Population(t) == Population(s) + multiset{child};
    assert forall x :: x in Population(s) ==> Population(s)[x] == 1;
  }

  lemma StepKeeps<T>(s: State<T>, e: Event<T>)
    requires Inv(s) && Enabled(s, e)
    ensures Inv(Step(s, e)) && Population(Step(s, e)) == Population(s) + ChildrenOf(e)
  {
    match e
    case Tick => TickKeeps(s);
    case Sleep(epochs) => SleepKeeps(s, epochs);
    case Fork(child) => ForkKeeps(s, child);
  }

  /** Exactly the zero deadline breaks the invariant: the sleeper is then in both queues. */
  lemma SleepKeepsExactly<T>(s: State<T>, epochs: nat)
    requires Inv(s)
    ensures Inv(SleepStep(s, epochs)) <==> |s.ready| == 1 || Deadline(s, epochs) != 0
  {
    if Enabled(s, Sleep(epochs)) {
      SleepKeeps(s, epochs);
    } else {
      var t, x := SleepStep(s, epochs), Current(s);
      assert x == s.ready[s.pos..][0] && x in t.sleeping && x in t.ready;
      assert x in multiset(t.sleeping) && x in multiset(t.ready);
      assert Population(t)[x] >= 2;
    }
  }

  /** The calls with that deadline: sleeping for no time at tick 0, or for as many ticks as are left until the
      count wraps round. */
  lemma ZeroDeadline<T>(s: State<T>, epochs: nat)
    requires s.tick < WORD && epochs < WORD
    ensures Deadline(s, epochs) == 0 <==> (epochs == 0 && s.tick == 0) || epochs == WORD - s.tick
  {
    if s.tick + epochs >= WORD {
      assert Deadline(s, epochs) == s.tick + epochs - WORD;
    }
  }
}
