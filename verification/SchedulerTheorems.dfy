/** Whole-run properties of the scheduler: what every run keeps, that no ready task waits for ever, and
    when a sleeping task is woken. A run is any sequence of timer ticks, sleeps and forks. */
module SchedulerTheorems {
  import opened Machine
  import opened SchedulerSpec

  function Run<T(==)>(s: State<T>, es: seq<Event<T>>): (t: State<T>)
    requires s.pos < |s.ready|
    ensures t.pos < |t.ready|
    decreases |es|
  {
    if es == [] then s else Run(Step(s, es[0]), es[1..])
  }

  /** Each event is enabled in the state it meets. */
  predicate Admissible<T(==)>(s: State<T>, es: seq<Event<T>>)
    requires s.pos < |s.ready|
    decreases |es|
  {
    es == [] || (Enabled(s, es[0]) && Admissible(Step(s, es[0]), es[1..]))
  }

  function Ticks<T>(es: seq<Event<T>>): nat {
    if es == [] then 0 else (if es[0].Tick? then 1 else 0) + Ticks(es[1..])
  }

  function Forks<T>(es: seq<Event<T>>): nat {
    if es == [] then 0 else (if es[0].Fork? then 1 else 0) + Forks(es[1..])
  }

  function Children<T>(es: seq<Event<T>>): multiset<T> {
    if es == [] then multiset{} else ChildrenOf(es[0]) + Children(es[1..])
  }

  /** next_pid starts at 2 once tasking is initialised; a run that does not bring it round to 1 again
      never meets the early return of timer_callback. */
  predicate PidsLast<T>(s: State<T>, es: seq<Event<T>>) {
    2 <= s.nextPid && s.nextPid + Forks(es) < WORD
  }

  lemma {:induction false} PrefixStep<T>(s: State<T>, es: seq<Event<T>>, k: nat)
    requires s.pos < |s.ready| && k < |es|
    ensures Run(s, es[..k + 1]) == Run(Step(s, es[0]), es[1..][..k])
  {
    assert es[..k + 1][1..] == es[1..][..k];
  }

  lemma PidsStep<T>(s: State<T>, es: seq<Event<T>>)
    requires s.pos < |s.ready| && es != [] && PidsLast(s, es)
    ensures PidsLast(Step(s, es[0]), es[1..])
    ensures Forks(es) == Forks(es[1..]) + (if es[0].Fork? then 1 else 0)
  {
  }

  // ---------------------------------------------------------------------------------------------
  // Safety

  /** In every run the two queues stay free of repetitions and disjoint, the running task stays ready,
      and together the queues hold the initial tasks and the forked ones, each exactly once. */
  lemma {:induction false} RunKeeps<T>(s: State<T>, es: seq<Event<T>>)
    requires Inv(s) && Admissible(s, es)
    ensures Inv(Run(s, es))
    ensures Population(Run(s, es)) == Population(s) + Children(es)
    decreases |es|
  {
    if es != [] {
      StepKeeps(s, es[0]);
      RunKeeps(Step(s, es[0]), es[1..]);
    }
  }

  // ---------------------------------------------------------------------------------------------
  // No starvation

  /** How many steps the task at position p of the ready queue may still have to wait.
      At or behind the running task it is the distance between the two. In front of it, the running
      position first has to wrap round; until then a step moves it closer to the number of tasks or
      shortens the queue behind it. */
  function Wait<T>(s: State<T>, p: nat): int
    requires p < |s.ready|
  {
    if s.pos <= p then p - s.pos
    else (Size(s) - 1 - s.pos) + (|s.ready| - 1 - s.pos) + 1 + p
  }

  lemma WaitBound<T>(s: State<T>, p: nat)
    requires s.pos < |s.ready| && p < |s.ready|
    ensures 0 <= Wait(s, p) <= 2 * (Size(s) - 1)
    ensures Wait(s, p) == 0 <==> p == s.pos
  {
  }

  /** One step moves a waiting task to position q, and its wait drops, by one or more, unless the step
      is a fork. */
  lemma WaitDrops<T>(s: State<T>, e: Event<T>, p: nat) returns (q: nat)
    requires Inv(s) && Enabled(s, e) && s.nextPid != 1
    requires p < |s.ready| && p != s.pos
    ensures var t := Step(s, e);
      && q < |t.ready| && t.ready[q] == s.ready[p]
      && Wait(t, q) < Wait(s, p) + (if e.Fork? then 3 else 0)
  {
    q := if e.Sleep? && s.pos < p then p - 1 else p;
  }

  lemma {:induction false} RunsSoon<T>(s: State<T>, es: seq<Event<T>>, p: nat) returns (k: nat)
    requires Inv(s) && Admissible(s, es) && PidsLast(s, es)
    requires p < |s.ready| && Wait(s, p) + 3 * Forks(es) <= |es|
    ensures k <= |es| && k <= Wait(s, p) + 3 * Forks(es)
    ensures Current(Run(s, es[..k])) == s.ready[p]
    decreases |es|
  {
    WaitBound(s, p);
    if p == s.pos {
      k := 0;
    } else {
      StepKeeps(s, es[0]);
      var q := WaitDrops(s, es[0], p);
      PidsStep(s, es);
      k := RunsSoon(Step(s, es[0]), es[1..], q);
      PrefixStep(s, es, k);
      k := k + 1;
    }
  }

  /** Every task that is ready becomes the running task within 2 (N - 1) steps, N being the number of
      tasks, in every run of ticks and sleeps; each fork in between adds at most three steps. Every one
      of those steps that is not a fork is a task switch, since a task that waits shares the queue. */
  lemma NoStarvation<T>(s: State<T>, es: seq<Event<T>>, x: T)
    requires Inv(s) && Admissible(s, es) && PidsLast(s, es)
    requires x in s.ready
    requires 2 * (Size(s) - 1) + 3 * Forks(es) <= |es|
    ensures exists k :: 0 <= k <= 2 * (Size(s) - 1) + 3 * Forks(es) && Current(Run(s, es[..k])) == x
  {
    var p :| 0 <= p < |s.ready| && s.ready[p] == x;
    WaitBound(s, p);
    var k := RunsSoon(s, es, p);
  }

  // ---------------------------------------------------------------------------------------------
  // The order in which tasks run

  /** A tick wakes the first sleeper whose time has passed and no other, behind all ready tasks, which keep their
      places, and then the task next in line runs, be it the one just woken. While next_pid is 1, all that happens
      is that the count goes on. */
  lemma TickRuns<T>(s: State<T>)
    requires Inv(s)
    ensures var t, k := Step(s, Tick), FirstExpired(s.sleeping, s.until, Wrap(s.tick + 1));
      && t.tick == Wrap(s.tick + 1) && t.ready[..|s.ready|] == s.ready
      && t.ready[|s.ready|..] + t.sleeping ==
           (if s.nextPid != 1 && k < |s.sleeping| then [s.sleeping[k]] + s.sleeping[..k] + s.sleeping[k + 1..]
            else s.sleeping)
      && |t.sleeping| == |s.sleeping| - (if s.nextPid != 1 && k < |s.sleeping| then 1 else 0)
      && t.pos == if s.nextPid == 1 then s.pos else if s.pos + 1 < |t.ready| then s.pos + 1 else 0
  {
    var k := FirstExpired(s.sleeping, s.until, Wrap(s.tick + 1));
    if s.nextPid != 1 && k < |s.sleeping| {
      JoinsTail(s.ready, s.sleeping, k);
    } else {
      NobodyJoins(s.ready, s.sleeping);
    }
  }

  lemma JoinsTail<T>(ready: seq<T>, sleeping: seq<T>, k: nat)
    requires k < |sleeping|
    ensures var t := ready + [sleeping[k]];
      t[..|ready|] == ready && t[|ready|..] + Without(sleeping, k) == [sleeping[k]] + sleeping[..k] + sleeping[k + 1..]
  {
    assert (ready + [sleeping[k]])[|ready|..] == [sleeping[k]];
  }

  lemma NobodyJoins<T>(ready: seq<T>, sleeping: seq<T>)
    ensures ready[..|ready|] == ready && ready[|ready|..] + sleeping == sleeping
  {
  }

  /** One step keeps a task that waits behind the running one in front of all tasks that were not in front of it,
      those that join the queue included, and does not pass it over. */
  lemma StaysAhead<T>(s: State<T>, e: Event<T>, p: nat) returns (q: nat)
    requires Inv(s) && Enabled(s, e) && s.pos < p < |s.ready|
    ensures var t := Step(s, e);
      && t.pos <= q < |t.ready| && t.ready[q] == s.ready[p]
      && forall i :: 0 <= i <= q ==> t.ready[i] in s.ready[..p + 1]
  {
    q := if e.Sleep? then p - 1 else p;
    var t := Step(s, e);
    forall i | 0 <= i <= q ensures t.ready[i] in s.ready[..p + 1] {
      var j := if e.Sleep? && i >= s.pos then i + 1 else i;
      assert t.ready[i] == s.ready[..p + 1][j];
    }
  }

  /** First come, first served: let the task at position p run already or wait behind the running one, and let y
      wait behind it or not be ready at all. In no run of ticks, sleeps and forks does y run, be it woken or forked
      on the way, before that task has run. */
  lemma {:induction false} FirstComeFirstServed<T>(s: State<T>, es: seq<Event<T>>, p: nat, y: T) returns (k: nat)
    requires Inv(s) && Admissible(s, es) && s.pos <= p < |s.ready|
    requires y !in s.ready[..p + 1] && Current(Run(s, es)) == y
    ensures k < |es| && Current(Run(s, es[..k])) == s.ready[p]
    decreases |es|
  {
    if p == s.pos {
      assert s.ready[p] == s.ready[..p + 1][p];
      k := 0;
    } else {
      assert s.ready[s.pos] == s.ready[..p + 1][s.pos];
      var q := StaysAhead(s, es[0], p);
      StepKeeps(s, es[0]);
      k := FirstComeFirstServed(Step(s, es[0]), es[1..], q, y);
      PrefixStep(s, es, k);
      k := k + 1;
    }
  }

  function Ticking<T>(k: nat): (es: seq<Event<T>>)
    ensures |es| == k
  {
    if k == 0 then [] else [Tick] + Ticking(k - 1)
  }

  /** No sleeper's time passes within k ticks. */
  ghost predicate Undisturbed<T>(s: State<T>, k: nat) {
    s.tick + k < WORD && forall x :: x in s.sleeping ==> x in s.until && s.tick + k <= s.until[x]
  }

  /** Over ticks that wake nobody the ready tasks take turns: after k of them, that is after some full rounds and the
      way to position i, the task at position i runs. */
  lemma {:induction false} RoundRobin<T>(s: State<T>, k: nat, rounds: nat, i: nat)
    requires Inv(s) && s.pos < |s.ready| && s.nextPid != 1 && Undisturbed(s, k)
    requires i < |s.ready| && s.pos + k == rounds * |s.ready| + i
    ensures Run(s, Ticking(k)).ready == s.ready && Run(s, Ticking(k)).pos == i
    decreases k
  {
    hide Inv, FirstExpired;
    if k == 0 {
      NoRound(s.pos, rounds, |s.ready|, i);
    } else {
      var t := Step(s, Tick);
      TickKeeps(s);
      UndisturbedTick(s, k);
      if s.pos + 1 < |s.ready| {
        RoundRobin(t, k - 1, rounds, i);
      } else {
        OneRound(s.pos + k, rounds, |s.ready|, i);
        RoundRobin(t, k - 1, rounds - 1, i);
      }
      RunThen(s, Tick, Ticking(k - 1));
    }
  }

  lemma RunThen<T>(s: State<T>, e: Event<T>, es: seq<Event<T>>)
    requires s.pos < |s.ready|
    ensures Run(s, [e] + es) == Run(Step(s, e), es)
  {
    assert ([e] + es)[1..] == es;
  }

  lemma UndisturbedTick<T>(s: State<T>, k: nat)
    requires Inv(s) && s.nextPid != 1 && k > 0 && Undisturbed(s, k)
    ensures Step(s, Tick) == s.(tick := s.tick + 1, pos := if s.pos + 1 < |s.ready| then s.pos + 1 else 0)
    ensures Undisturbed(Step(s, Tick), k - 1)
  {
    var j := FirstExpired(s.sleeping, s.until, s.tick + 1);
    assert forall x :: x in s.sleeping ==> !Expired(x, s.until, s.tick + 1);
  }

  lemma NoRound(p: nat, rounds: nat, n: nat, i: nat)
    requires p < n && p == rounds * n + i
    ensures p == i
  {
    assert rounds > 0 ==> rounds * n >= n;
  }

  lemma OneRound(x: nat, rounds: nat, n: nat, i: nat)
    requires i < n <= x == rounds * n + i
    ensures rounds > 0 && x - n == (rounds - 1) * n + i
  {
    assert rounds == 0 ==> rounds * n == 0;
  }

  lemma ForkUndisturbed<T>(s: State<T>, child: T, k: nat)
    requires Inv(s) && Enabled(s, Fork(child)) && Undisturbed(s, k)
    ensures Undisturbed(Step(s, Fork(child)), k)
  {
  }

  /** A forked task is the last in line: over ticks that wake nobody, all tasks behind the one that forked run
      first, in their order, and the child runs next. */
  lemma ForkedRunsLast<T>(s: State<T>, child: T, k: nat)
    requires Inv(s) && s.pos < |s.ready| && Enabled(s, Fork(child)) && Undisturbed(s, k) && Wrap(s.nextPid + 1) != 1
    requires s.pos + k <= |s.ready|
    ensures Current(Run(s, [Fork(child)] + Ticking(k))) ==
      if s.pos + k < |s.ready| then s.ready[s.pos + k] else child
  {
    hide Inv;
    var t := Step(s, Fork(child));
    ForkKeeps(s, child);
    ForkUndisturbed(s, child, k);
    RoundRobin(t, k, 0, s.pos + k);
    RunThen(s, Fork(child), Ticking(k));
  }

  // ---------------------------------------------------------------------------------------------
  // Sleeping

  /** Task x sits at position j of the sleep queue and sleeps until d. */
  predicate Asleep<T(==)>(s: State<T>, x: T, j: nat, d: nat) {
    j < |s.sleeping| && s.sleeping[j] == x && x in s.until && s.until[x] == d
  }

  lemma SleepingIsNotReady<T>(s: State<T>, x: T)
    requires Inv(s) && x in s.sleeping
    ensures x !in s.ready
  {
    assert x in multiset(s.sleeping);
    assert x in s.ready ==> x in multiset(s.ready);
    assert x in Population(s);
  }

  /** What one step does to a sleeper: either it is woken, by a tick beyond its deadline, or it stays
      asleep at position i, and such a tick brings it one place further ahead. */
  lemma SleeperStep<T>(s: State<T>, e: Event<T>, x: T, j: nat, d: nat) returns (woken: bool, i: nat)
    requires Inv(s) && Enabled(s, e) && s.nextPid != 1
    requires Asleep(s, x, j, d)
    ensures d < WORD
    ensures s.tick + 1 < WORD ==> Step(s, e).tick == s.tick + (if e.Tick? then 1 else 0)
    ensures if woken then x in Step(s, e).ready else Asleep(Step(s, e), x, i, d)
    ensures woken ==> e.Tick? && Step(s, e).tick > d
    ensures !woken ==> i <= j && (e.Tick? && Step(s, e).tick > d ==> i < j)
  {
    woken, i := false, j;
    SleepingIsNotReady(s, x);
    if e.Tick? {
      var u := Advance(s);
      var k := FirstExpired(u.sleeping, u.until, u.tick);
      woken := k == j;
      if k < j {
        RepeatsNot(s, k, j);
        i := j - 1;
      } else if j < k < |s.sleeping| {
        RepeatsNot(s, k, j);
      }
    }
  }

  lemma RepeatsNot<T>(s: State<T>, i: nat, j: nat)
    requires Inv(s) && i < |s.sleeping| && j < |s.sleeping| && i != j
    ensures s.sleeping[i] != s.sleeping[j]
  {
    assert Population(s) == multiset(s.sleeping) + multiset(s.ready);
    TakeOut(s.sleeping, i, multiset(s.ready));
    assert s.sleeping[j] == Without(s.sleeping, i)[if j < i then j else j - 1];
  }

  /** A task is not woken before its deadline has passed: it is still asleep as long as the tick count
      is at most the deadline. */
  lemma {:induction false} NotWokenEarly<T>(s: State<T>, es: seq<Event<T>>, x: T, j: nat, d: nat) returns (i: nat)
    requires Inv(s) && Admissible(s, es) && PidsLast(s, es)
    requires Asleep(s, x, j, d)
    requires s.tick + Ticks(es) <= d
    ensures i <= j && Asleep(Run(s, es), x, i, d)
    decreases |es|
  {
    i := j;
    if es != [] {
      var woken;
      woken, i := SleeperStep(s, es[0], x, j, d);
      StepKeeps(s, es[0]);
      PidsStep(s, es);
      i := NotWokenEarly(Step(s, es[0]), es[1..], x, i, d);
    }
  }

  /** A sleeper with j others ahead of it is woken by the end of tick m + 1 + j, where m is its deadline
      or the present tick, whichever is later: every tick after the deadline that does not wake it wakes
      someone ahead of it, and nobody ever joins ahead of it. */
  lemma {:induction false} WokenInTime<T>(s: State<T>, es: seq<Event<T>>, x: T, j: nat, d: nat, m: nat) returns (k: nat)
    requires Inv(s) && Admissible(s, es) && PidsLast(s, es)
    requires Asleep(s, x, j, d)
    requires d <= m && s.tick <= m && m + 1 + j < WORD
    requires m + 1 + j <= s.tick + Ticks(es)
    ensures k <= |es|
    ensures x in Run(s, es[..k]).ready && Run(s, es[..k]).tick <= m + 1 + j
    decreases |es|
  {
    var woken, i := SleeperStep(s, es[0], x, j, d);
    if woken {
      PrefixStep(s, es, 0);
      k := 1;
    } else {
      StepKeeps(s, es[0]);
      PidsStep(s, es);
      k := WokenInTime(Step(s, es[0]), es[1..], x, i, d, m + (j - i));
      PrefixStep(s, es, k);
      k := k + 1;
    }
  }

  /** The promise of sleep: a task that goes to sleep at tick count s.tick until d = s.tick + epochs, with
      p tasks asleep before it, is not ready while the count is at most d, and has become ready by the
      end of tick d + 1 + p, in every run, as long as the count does not wrap round. */
  lemma SleepBounds<T>(s: State<T>, epochs: nat, es: seq<Event<T>>)
    requires Inv(s) && |s.ready| > 1 && 0 < s.tick + epochs < WORD
    requires Admissible(SleepStep(s, epochs), es) && PidsLast(s, es)
    ensures var x, t, d, p := Current(s), SleepStep(s, epochs), s.tick + epochs, |s.sleeping|;
      && (s.tick + Ticks(es) <= d ==> x in Run(t, es).sleeping && x !in Run(t, es).ready)
      && (d + 1 + p < WORD && d + 1 + p <= s.tick + Ticks(es) ==>
            exists k :: 0 <= k <= |es| && x in Run(t, es[..k]).ready && Run(t, es[..k]).tick <= d + 1 + p)
  {
    var x, t, d, p := Current(s), SleepStep(s, epochs), s.tick + epochs, |s.sleeping|;
    SleepKeeps(s, epochs);
    assert Asleep(t, x, p, d);
    if s.tick + Ticks(es) <= d {
      var i := NotWokenEarly(t, es, x, p, d);
      RunKeeps(t, es);
      SleepingIsNotReady(Run(t, es), x);
    } else if d + 1 + p < WORD && d + 1 + p <= s.tick + Ticks(es) {
      var k := WokenInTime(t, es, x, p, d, d);
    }
  }

  /** The one deadline that no run ever passes: the tick count wraps round without exceeding it. */
  lemma {:induction false} NeverWoken<T>(s: State<T>, es: seq<Event<T>>, x: T, j: nat) returns (i: nat)
    requires Inv(s) && Admissible(s, es) && PidsLast(s, es)
    requires Asleep(s, x, j, WORD - 1)
    ensures Asleep(Run(s, es), x, i, WORD - 1)
    decreases |es|
  {
    i := j;
    if es != [] {
      var woken;
      woken, i := SleeperStep(s, es[0], x, j, WORD - 1);
      StepKeeps(s, es[0]);
      PidsStep(s, es);
      i := NeverWoken(Step(s, es[0]), es[1..], x, i);
    }
  }
}
