/** The task lists of cpu/task.c and cpu/timer.c: ready_queue and sleep_queue are singly linked through
    the one next field of a task, and every operation rewires that field in place.

    Each method is proved to take exactly one step of the state machine in SchedulerSpec. A step is
    atomic: the timer handler runs through an interrupt gate, and fork disables interrupts. */
module Scheduler {
  import opened Machine
  import opened SchedulerSpec

  class Task {
    var id: nat
    var endOfSleep: nat
    var next: Task?

    constructor (id: nat)
      ensures this.id == id && endOfSleep == 0 && next == null
    {
      this.id, endOfSleep, next := id, 0, null;
    }
  }

  /** The task after position i of s. */
  function NextIn(s: seq<Task>, i: nat): Task?
    requires i < |s|
  {
    if i + 1 < |s| then s[i + 1] else null
  }

  /** The list that starts at head visits exactly the tasks of s, in order, and ends in NULL. */
  ghost predicate Chain(head: Task?, s: seq<Task>)
    reads s
  {
    && head == (if s == [] then null else s[0])
    && forall i {:trigger s[i].next} :: 0 <= i < |s| ==> s[i].next == NextIn(s, i)
  }

  /** The tasks that a chain visits are determined by its head. */
  lemma {:induction false} ChainUnique(head: Task?, s: seq<Task>, t: seq<Task>)
    requires Chain(head, s) && Chain(head, t)
    ensures s == t
    decreases |s|
  {
    if s != [] && t != [] {
      ChainTail(head, s);
      ChainTail(head, t);
      ChainUnique(s[0].next, s[1..], t[1..]);
      assert s == [s[0]] + s[1..] && t == [t[0]] + t[1..];
    }
  }

  lemma ChainTail(head: Task?, s: seq<Task>)
    requires Chain(head, s) && s != []
    ensures Chain(s[0].next, s[1..])
  {
    assert s[0].next == NextIn(s, 0);
    forall i | 0 <= i < |s[1..]| ensures s[1..][i].next == NextIn(s[1..], i) {
      assert s[i + 1].next == NextIn(s, i + 1);
    }
  }

  /** The list that starts at head visits the tasks of s and then reaches x. */
  ghost predicate Leads(head: Task?, s: seq<Task>, x: Task)
    reads s
  {
    && head == (s + [x])[0]
    && forall i {:trigger s[i].next} :: 0 <= i < |s| ==> s[i].next == NextIn(s + [x], i)
  }

  lemma ChainJoin(head: Task?, s: seq<Task>, x: Task, r: seq<Task>)
    requires Leads(head, s, x) && Chain(x, r)
    ensures Chain(head, s + r)
  {
    var q := s + r;
    forall i | 0 <= i < |q| ensures q[i].next == NextIn(q, i) {
      if i < |s| {
        assert s[i].next == NextIn(s + [x], i);
      } else {
        assert r[i - |s|].next == NextIn(r, i - |s|);
      }
    }
  }

  lemma ChainFrom(head: Task?, s: seq<Task>, k: nat)
    requires Chain(head, s) && k < |s|
    ensures Chain(s[k], s[k..])
  {
    var q := s[k..];
    forall i | 0 <= i < |q| ensures q[i].next == NextIn(q, i) {
      assert s[k + i].next == NextIn(s, k + i);
    }
  }

  // ---------------------------------------------------------------------------------------------
  // Queues without repetitions

  ghost predicate Distinct<T>(s: seq<T>) {
    s == [] || (s[|s| - 1] !in s[..|s| - 1] && Distinct(s[..|s| - 1]))
  }

  ghost predicate Apart<T>(s: seq<T>, t: seq<T>) {
    s == [] || (s[|s| - 1] !in t && Apart(s[..|s| - 1], t))
  }

  /** Two queues without repetitions and without a common task. */
  ghost predicate Separate<T>(s: seq<T>, t: seq<T>) {
    Distinct(s) && Distinct(t) && Apart(s, t)
  }

  function Members<T(==)>(s: seq<T>): set<T> {
    if s == [] then {} else Members(s[..|s| - 1]) + {s[|s| - 1]}
  }

  ghost predicate AllAwake<T>(s: seq<T>, u: map<T, nat>) {
    s == [] || (var t := s[|s| - 1]; t in u && u[t] == 0 && AllAwake(s[..|s| - 1], u))
  }

  ghost predicate AllAsleep<T>(s: seq<T>, u: map<T, nat>) {
    s == [] || (var t := s[|s| - 1]; t in u && 0 < u[t] < WORD && AllAsleep(s[..|s| - 1], u))
  }

  /** The map u holds 0 for the tasks of r, a deadline for those of s, and nothing else. */
  ghost predicate Timed<T>(r: seq<T>, s: seq<T>, u: map<T, nat>) {
    AllAwake(r, u) && AllAsleep(s, u) && u.Keys <= Members(r) + Members(s)
  }

  lemma {:induction false} MembersIn<T>(s: seq<T>)
    ensures forall t :: t in s <==> t in Members(s)
  {
    if s != [] {
      var init, x := s[..|s| - 1], s[|s| - 1];
      MembersIn(init);
      assert s == init + [x];
    }
  }

  lemma {:induction false} AwakeMembers<T>(s: seq<T>, u: map<T, nat>)
    ensures AllAwake(s, u) <==> forall t :: t in s ==> t in u && u[t] == 0
  {
    if s != [] {
      var init, x := s[..|s| - 1], s[|s| - 1];
      AwakeMembers(init, u);
      assert s == init + [x];
    }
  }

  lemma {:induction false} AsleepMembers<T>(s: seq<T>, u: map<T, nat>)
    ensures AllAsleep(s, u) <==> forall t :: t in s ==> t in u && 0 < u[t] < WORD
  {
    if s != [] {
      var init, x := s[..|s| - 1], s[|s| - 1];
      AsleepMembers(init, u);
      assert s == init + [x];
    }
  }

  /** The same in terms of the members of the two queues. */
  lemma TimedMembers<T>(r: seq<T>, s: seq<T>, u: map<T, nat>)
    ensures Timed(r, s, u) <==>
      && (forall t :: t in u ==> t in r || t in s)
      && (forall t :: t in r ==> t in u && u[t] == 0)
      && (forall t :: t in s ==> t in u && 0 < u[t] < WORD)
  {
    MembersIn(r);
    MembersIn(s);
    AwakeMembers(r, u);
    AsleepMembers(s, u);
    if forall t :: t in u ==> t in r || t in s {
      forall t | t in u.Keys ensures t in Members(r) + Members(s) {
        assert t in u;
      }
    }
    if Timed(r, s, u) {
      forall t | t in u ensures t in r || t in s {
        assert t in Members(r) + Members(s);
      }
    }
  }

  lemma {:induction false} ApartMembers<T>(s: seq<T>, t: seq<T>)
    ensures Apart(s, t) <==> forall x :: x in s ==> x !in t
  {
    if s != [] {
      var init, x := s[..|s| - 1], s[|s| - 1];
      ApartMembers(init, t);
      assert s == init + [x];
    }
  }

  lemma {:induction false} DistinctAt<T>(s: seq<T>, i: nat, j: nat)
    requires Distinct(s) && i < j < |s|
    ensures s[i] != s[j]
  {
    var init := s[..|s| - 1];
    if j == |s| - 1 {
      assert init[i] == s[i];
    } else {
      DistinctAt(init, i, j);
    }
  }

  lemma WithoutMembers<T>(s: seq<T>, k: nat)
    requires k < |s|
    ensures forall x :: x in s <==> x in Without(s, k) || x == s[k]
  {
    assert s == s[..k] + [s[k]] + s[k + 1..];
    assert forall x :: x in s <==> x in s[..k] || x == s[k] || x in s[k + 1..];
  }

  lemma {:induction false} DistinctWithout<T>(s: seq<T>, k: nat)
    requires Distinct(s) && k < |s|
    ensures Distinct(Without(s, k)) && s[k] !in Without(s, k)
  {
    var n := |s| - 1;
    var init := s[..n];
    if k == n {
      assert Without(s, k) == init;
    } else {
      DistinctWithout(init, k);
      WithoutMembers(init, k);
      var rest := Without(init, k);
      assert Without(s, k) == rest + [s[n]];
      assert (rest + [s[n]])[..|rest|] == rest;
      assert s[n] !in rest;
      assert s[k] == init[k];
    }
  }

  lemma DistinctAppend<T>(s: seq<T>, x: T)
    requires Distinct(s) && x !in s
    ensures Distinct(s + [x])
  {
    assert (s + [x])[..|s|] == s;
  }

  /** The task at position k of the sleepers is taken out. */
  lemma LeaveSeparate<T>(r: seq<T>, s: seq<T>, k: nat, u: map<T, nat>)
    requires Separate(r, s) && Timed(r, s, u) && k < |s|
    ensures var x := s[k];
      && x !in r && x !in Without(s, k) && Separate(r, Without(s, k)) && Timed(r, Without(s, k), u - {x})
  {
    var x, s' := s[k], Without(s, k);
    DistinctWithout(s, k);
    WithoutMembers(s, k);
    ApartMembers(r, s);
    ApartMembers(r, s');
    TimedMembers(r, s, u);
    TimedMembers(r, s', u - {x});
  }

  /** The task at position k of the ready queue moves to the tail of the sleepers. */
  lemma ParkSeparate<T>(r: seq<T>, s: seq<T>, k: nat, u: map<T, nat>, d: nat)
    requires Separate(r, s) && Timed(r, s, u) && k < |r| && 0 < d < WORD
    ensures var x := r[k];
      && x !in s && Separate(Without(r, k), s + [x]) && Timed(Without(r, k), s + [x], u[x := d])
  {
    var x, r' := r[k], Without(r, k);
    DistinctWithout(r, k);
    WithoutMembers(r, k);
    ApartMembers(r, s);
    ApartMembers(r', s + [x]);
    DistinctAppend(s, x);
    TimedMembers(r, s, u);
    TimedMembers(r', s + [x], u[x := d]);
  }

  lemma SeparateMembers<T>(r: seq<T>, s: seq<T>)
    requires Separate(r, s)
    ensures Distinct(r) && forall i :: 0 <= i < |s| ==> s[i] !in r
  {
    ApartMembers(r, s);
  }

  /** A new task joins the ready queue. */
  lemma BirthSeparate<T>(r: seq<T>, s: seq<T>, x: T, u: map<T, nat>)
    requires Separate(r, s) && Timed(r, s, u) && x !in r && x !in s
    ensures Separate(r + [x], s) && Timed(r + [x], s, u[x := 0])
  {
    ApartMembers(r, s);
    ApartMembers(r + [x], s);
    DistinctAppend(r, x);
    TimedMembers(r, s, u);
    TimedMembers(r + [x], s, u[x := 0]);
  }

  lemma {:induction false} DistinctCounts<T>(s: seq<T>)
    ensures Distinct(s) <==> NoRepeats(multiset(s))
  {
    if s != [] {
      var init, x := s[..|s| - 1], s[|s| - 1];
      DistinctCounts(init);
      assert s == init + [x];
      assert multiset(s) == multiset(init) + multiset{x};
      assert x in init <==> x in multiset(init);
      assert x in multiset(s);
      if !Distinct(init) {
        var t :| t in multiset(init) && multiset(init)[t] != 1;
        assert t in multiset(s) && multiset(s)[t] > 1;
      } else if x !in init {
        forall t | t in multiset(s) ensures multiset(s)[t] == 1 {
          assert t == x || t in multiset(init);
        }
      }
    }
  }

  /** The invariant of the state machine, read off the two queues. */
  lemma InvRead<T>(s: State<T>)
    ensures Inv(s) <==>
      && s.pos < |s.ready| && s.tick < WORD
      && Separate(s.ready, s.sleeping) && Timed(s.ready, s.sleeping, s.until)
  {
    TimedMembers(s.ready, s.sleeping, s.until);
    CountsSeparate(s.ready, s.sleeping);
  }

  lemma CountsSeparate<T>(r: seq<T>, s: seq<T>)
    ensures Separate(r, s) <==> NoRepeats(multiset(r) + multiset(s))
  {
    DistinctCounts(r);
    DistinctCounts(s);
    ApartMembers(r, s);
    var p := multiset(r) + multiset(s);
    if NoRepeats(p) {
      forall t | t in multiset(r) ensures multiset(r)[t] == 1 && t !in multiset(s) {
        assert t in p;
      }
      forall t | t in multiset(s) ensures multiset(s)[t] == 1 {
        assert t in p;
      }
      assert forall t :: t in r ==> t in multiset(r);
      assert forall t :: t in s ==> t in multiset(s);
    }
    if Separate(r, s) {
      forall t | t in p ensures p[t] == 1 {
        assert t in multiset(r) <==> t in r;
        assert t in multiset(s) <==> t in s;
      }
    }
  }

  /** When one list runs into the middle of the other, no reading of the two lists keeps them apart. */
  lemma SharedTail(readyHead: Task?, sleepHead: Task?, r: seq<Task>, s: seq<Task>, k: nat, r': seq<Task>, s': seq<Task>)
    requires k < |r| && Chain(readyHead, r) && Chain(sleepHead, s + r[k..])
    requires Chain(readyHead, r') && Chain(sleepHead, s')
    ensures !Separate(r', s')
  {
    ChainUnique(readyHead, r, r');
    ChainUnique(sleepHead, s + r[k..], s');
    assert s'[|s|] == r[k];
    ApartMembers(r', s');
  }

  class Scheduler {
    var currentTask: Task?
    var readyQueue: Task?
    var sleepQueue: Task?
    var nextPid: nat
    var tick: nat

    // The tasks the two lists visit, the position of the running task,
    ghost var ready: seq<Task>
    ghost var sleeping: seq<Task>
    ghost var pos: nat
    // and the end_of_sleep field of each task.
    ghost var until: map<Task, nat>

    /** The lists are what ready and sleeping say, with no task twice, and the running task is ready.
        Before tasking is initialised both lists are empty. */
    ghost predicate Linked()
      reads this, ready, sleeping
    {
      && Chain(readyQueue, ready)
      && Chain(sleepQueue, sleeping)
      && Separate(ready, sleeping)
      && tick < WORD
      && (if ready == [] then currentTask == null && sleeping == [] && nextPid == 1
          else pos < |ready| && currentTask == ready[pos])
    }

    /** In addition, a task sleeps exactly when its end_of_sleep is not zero. */
    ghost predicate Valid()
      reads this, ready, sleeping, until.Keys
    {
      && Linked()
      && Timed(ready, sleeping, until)
      && (forall t :: t in until ==> until[t] == t.endOfSleep)
    }

    /** The state of the state machine that the lists stand for. */
    ghost function Abs(): State<Task>
      reads this
    {
      State(ready, pos, sleeping, until, tick, nextPid)
    }

    /** A valid pair of lists stands for a state that meets the invariant of the state machine, so the
        whole-run theorems apply to it. */
    lemma ValidIsInv()
      requires Valid() && ready != []
      ensures Inv(Abs())
    {
      InvRead(Abs());
    }

    constructor ()
      ensures Valid() && ready == [] && nextPid == 1
    {
      currentTask, readyQueue, sleepQueue := null, null, null;
      nextPid, tick := 1, 0;
      ready, sleeping, pos, until := [], [], 0, map[];
    }

    /** The list work of initialise_tasking: the kernel itself becomes the first task. */
    method InitialiseTasking()
      requires Valid() && ready == []
      modifies this
      ensures Valid() && fresh(ready) && |ready| == 1 && sleeping == []
      ensures Abs() == State(ready, 0, [], map[ready[0] := 0], old(tick), Wrap(old(nextPid) + 1))
      ensures ready[0].id == old(nextPid)
    {
      var task := new Task(nextPid);
      currentTask, readyQueue := task, task;
      nextPid := Wrap(nextPid + 1);
      ready, sleeping, pos, until := [task], [], 0, map[task := 0];
    }

    /** Walks to the last task of a list. */
    static method Tail(head: Task, ghost s: seq<Task>) returns (last: Task)
      requires Chain(head, s) && s != []
      ensures last == s[|s| - 1]
    {
      last := head;
      ghost var i := 0;
      while last.next != null
        invariant 0 <= i < |s| && last == s[i]
        decreases |s| - i
      {
        last := last.next;
        i := i + 1;
      }
    }

    /** Finds the task whose next pointer leads to the task at position k. */
    static method Predecessor(head: Task, target: Task, ghost s: seq<Task>, ghost k: nat) returns (p: Task)
      requires Chain(head, s) && Distinct(s)
      requires 0 < k < |s| && s[k] == target
      ensures p == s[k - 1]
    {
      p := head;
      ghost var i := 0;
      while p.next != target
        invariant 0 <= i < k && p == s[i]
        decreases k - i
      {
        p := p.next;
        i := i + 1;
      }
      if i + 1 < k {
        DistinctAt(s, i + 1, k);
      }
    }

    /** Takes the task at position k out of a list. Its own next pointer is left as it is. */
    static method Unlink(head: Task, target: Task, ghost s: seq<Task>, ghost k: nat) returns (newHead: Task?)
      requires Chain(head, s) && Distinct(s)
      requires k < |s| && s[k] == target
      modifies (set t | t in s && t != target)`next
      ensures Chain(newHead, Without(s, k))
    {
      newHead := head;
      DistinctWithout(s, k);
      forall i | 0 <= i < |s| && i != k ensures s[i] != target {
        DistinctAt(s, if i < k then i else k, if i < k then k else i);
      }
      if target == head {
        newHead := target.next;
      } else {
        var p := Predecessor(head, target, s, k);
        p.next := target.next;
      }
      ghost var rest := Without(s, k);
      assert newHead == if rest == [] then null else rest[0];
      forall i | 0 <= i < |rest| ensures rest[i].next == NextIn(rest, i) {
        var j := if i < k then i else i + 1;
        assert rest[i] == s[j];
        if j < k - 1 {
          DistinctAt(s, j, k - 1);
        } else if 0 < k < j {
          DistinctAt(s, k - 1, j);
        }
        assert old(s[j].next) == NextIn(s, j);
      }
    }

    /** Hangs a task at the end of a list. */
    static method Append(head: Task, task: Task, ghost s: seq<Task>)
      requires Chain(head, s) && s != []
      modifies s`next
      ensures Leads(head, s, task)
    {
      var last := Tail(head, s);
      last.next := task;
    }

    /** Hangs a task at the end of a list and makes it the last one. */
    static method AppendLast(head: Task, task: Task, ghost s: seq<Task>)
      requires Chain(head, s) && s != [] && task !in s
      modifies s`next, task`next
      ensures Chain(head, s + [task]) && task.next == null
    {
      Append(head, task, s);
      task.next := null;
      ChainJoin(head, s, task, [task]);
    }

    /** Takes the running task out of the ready queue and resets its next pointer. */
    method LeaveReady()
      requires Chain(readyQueue, ready) && Distinct(ready)
      requires pos < |ready| && currentTask == ready[pos]
      modifies this`readyQueue, this`ready, ready`next
      ensures ready == old(Without(ready, pos)) && Chain(readyQueue, ready) && currentTask.next == null
    {
      readyQueue := Unlink(readyQueue, currentTask, ready, pos);
      DistinctWithout(ready, pos);
      currentTask.next := null;
      ready := Without(ready, pos);
    }

    /** The list work of switch_task. It is called with the running task either awake or already
        hanging at the end of the sleep queue as well; in the second case it leaves the ready queue
        here, and with its next pointer cleared the two lists come apart. */
    method SwitchTask()
      requires currentTask != null ==> pos < |ready| && currentTask == ready[pos]
      requires Chain(readyQueue, ready) && Distinct(ready)
      modifies this`currentTask, this`readyQueue, this`ready, this`pos, ready`next
      ensures Chain(readyQueue, ready)
      ensures currentTask != null ==> pos < |ready| && currentTask == ready[pos]
      ensures currentTask == null <==> old(currentTask) == null
      ensures old(currentTask) == null || |old(ready)| == 1 ==>
        ready == old(ready) && pos == old(pos) && forall t :: t in ready ==> t.next == old(t.next)
      ensures old(currentTask) != null && |old(ready)| > 1 && old(currentTask.endOfSleep) == 0 ==>
        && ready == old(ready) && pos == (if old(pos) + 1 == |ready| then 0 else old(pos) + 1)
        && forall t :: t in ready ==> t.next == old(t.next)
      ensures old(currentTask) != null && |old(ready)| > 1 && old(currentTask.endOfSleep) != 0 ==>
        && ready == old(Without(ready, pos)) && pos == (if old(pos) == |ready| then 0 else old(pos))
        && old(currentTask).next == null
    {
      if currentTask == null {
        return;
      }
      if currentTask == readyQueue && readyQueue.next == null {
        return;
      }
      var newTask := currentTask.next;
      if newTask == null {
        newTask := readyQueue;
      }
      ghost var newPos := if pos + 1 == |ready| then 0 else pos + 1;
      assert newTask == ready[newPos];

      if currentTask.endOfSleep != 0 {
        LeaveReady();
        newPos := if pos == |ready| then 0 else pos;
      }
      currentTask := newTask;
      pos := newPos;
    }

    /** Hangs a task that is in neither list at the tail of the ready queue. */
    method JoinReady(task: Task)
      requires Valid() && ready != [] && task !in ready && task !in sleeping && task.endOfSleep == 0
      modifies this`ready, this`until, ready`next, task`next
      ensures Valid() && task.next == null
      ensures Abs() == old(Abs().(ready := ready + [task], until := until[task := 0]))
    {
      hide Separate, Timed;
      BirthSeparate(ready, sleeping, task, until);
      SeparateMembers(ready, sleeping);
      AppendLast(readyQueue, task, ready);
      ready, until := ready + [task], until[task := 0];
    }

    /** Takes an expired task out of the sleep queue. */
    method LeaveSleepers(task: Task, ghost i: nat)
      requires Valid() && i < |sleeping| && sleeping[i] == task
      modifies this`sleepQueue, this`sleeping, this`until, sleeping`next, task`endOfSleep
      ensures Valid() && task !in ready && task !in sleeping && task.endOfSleep == 0
      ensures Abs() == old(Abs().(sleeping := Without(sleeping, i), until := until - {task}))
    {
      LeaveSeparate(ready, sleeping, i, until);
      ApartMembers(ready, sleeping);
      task.endOfSleep := 0;
      sleepQueue := Unlink(sleepQueue, task, sleeping, i);
      sleeping, until := Without(sleeping, i), until - {task};
    }

    /** Moves an expired task from the sleep queue to the tail of the ready queue. */
    method WakeUp(task: Task, ghost i: nat)
      requires Valid() && i < |sleeping| && sleeping[i] == task
      modifies this, ready`next, sleeping`next, task`endOfSleep
      ensures Valid() && Abs() == WakeAt(old(Abs()), i)
      ensures task.next == null
    {
      LeaveSleepers(task, i);
      JoinReady(task);
      assert until == old(until)[task := 0];
    }

    /** The wake loop of the timer handler. It ends with the task it wakes, because that task's next
        pointer is NULL from then on. */
    method WakeFirstExpired()
      requires Valid() && ready != []
      modifies this, ready, sleeping
      ensures Valid() && ready != [] && Abs() == Wake(old(Abs()))
    {
      ghost var before := Abs();
      ghost var first := FirstExpired(before.sleeping, before.until, before.tick);
      ghost var i := 0;
      var task := sleepQueue;
      while task != null
        invariant Valid() && ready != []
        invariant i <= |sleeping|
        invariant task != null ==> i < |sleeping| && task == sleeping[i]
        invariant task != null ==> Abs() == before && i <= first
        invariant task == null ==> Abs() == Wake(before)
        decreases if task == null then 0 else |sleeping| + 1 - i
      {
        AsleepMembers(sleeping, until);
        assert task in until;
        assert Expired(task, before.until, tick) <==> tick > task.endOfSleep;
        if tick > task.endOfSleep {
          assert i == first;
          WakeUp(task, i);
          assert Abs() == Wake(before);
        } else {
          i := i + 1;
          assert task.next == NextIn(sleeping, i - 1);
        }
        task := task.next;
      }
    }

    /** A switch away from a task that is awake. */
    method SwitchAwake()
      requires Valid() && ready != []
      modifies this`currentTask, this`readyQueue, this`ready, this`pos, ready`next
      ensures Valid() && Abs() == Rotate(old(Abs()))
    {
      AwakeMembers(ready, until);
      ApartMembers(ready, sleeping);
      SwitchTask();
      assert ready == old(ready);
      assert forall t :: t in sleeping ==> t.next == old(t.next);
      assert Chain(sleepQueue, sleeping);
    }

    /** One timer interrupt: the first sleeper whose time has passed is woken, and the next ready task
        runs. */
    method TimerCallback()
      requires Valid()
      modifies this, ready, sleeping
      ensures Valid()
      ensures old(ready) == [] ==> Abs() == Advance(old(Abs()))
      ensures old(ready) != [] ==> Abs() == Step(old(Abs()), Event.Tick) && Inv(Abs())
    {
      hide Inv;
      tick := Wrap(tick + 1);
      assert Valid() && Abs() == Advance(old(Abs()));
      if nextPid == 1 {
        if ready != [] {
          ValidIsInv();
        }
        return;
      }
      WakeFirstExpired();
      SwitchAwake();
      ValidIsInv();
    }

    /** Between the two halves of sleep: the running task has a deadline and hangs at the end of the
        sleep queue, but it is still in the ready queue too. */
    ghost predicate HalfAsleep()
      reads this, ready, sleeping, until.Keys
    {
      && Chain(readyQueue, ready) && Separate(ready, sleeping)
      && |ready| > 1 && pos < |ready| && ready[pos] == currentTask && tick < WORD
      && Leads(sleepQueue, sleeping, currentTask)
      && 0 < currentTask.endOfSleep < WORD
      && Timed(ready, sleeping, until)
      && (forall t :: t in until ==> t == currentTask || until[t] == t.endOfSleep)
    }

    /** The first half of sleep: the running task gets its deadline and is hung at the end of the sleep
        queue, while it is still in the ready queue too. */
    method JoinSleepers(epochs: nat)
      requires Valid() && ready != []
      modifies this`sleepQueue, currentTask`endOfSleep, sleeping`next
      ensures Chain(readyQueue, ready) && Leads(sleepQueue, sleeping, currentTask)
      ensures currentTask.endOfSleep == old(Deadline(Abs(), epochs))
      ensures |ready| > 1 && currentTask.endOfSleep != 0 ==> HalfAsleep()
    {
      currentTask.endOfSleep := Wrap(tick + epochs);
      if sleepQueue == null {
        sleepQueue := currentTask;
      } else {
        Append(sleepQueue, currentTask, sleeping);
        assert forall t :: t in ready ==> t.next == old(t.next);
      }
    }

    /** The second half of sleep, a switch away from a task that has joined the sleepers. */
    method SwitchAsleep()
      requires HalfAsleep()
      modifies this, ready`next
      ensures Valid()
      ensures Abs() == old(Abs().(ready := Without(ready, pos), sleeping := sleeping + [currentTask],
          pos := if pos + 1 == |ready| then 0 else pos, until := until[currentTask := currentTask.endOfSleep]))
    {
      hide Separate, Timed;
      var sleeper: Task := currentTask;
      ParkSeparate(ready, sleeping, pos, until, sleeper.endOfSleep);
      SeparateMembers(ready, sleeping);
      SwitchTask();
      assert forall t :: t in sleeping ==> t.next == old(t.next);
      ChainJoin(sleepQueue, sleeping, sleeper, [sleeper]);
      sleeping := sleeping + [sleeper];
      until := until[sleeper := sleeper.endOfSleep];
    }

    /** The running task goes to sleep for the given number of ticks. The lists stay in order if and only if it
        is the only ready task or its deadline is not 0. Otherwise the sleep list runs into the ready list, and no
        reading of the two keeps them apart. Both branches at the end are the one call of switch_task; they differ
        in what is known of it. */
    method Sleep(epochs: nat)
      requires Valid() && ready != []
      modifies this, ready, sleeping
      ensures Abs() == Step(old(Abs()), Event.Sleep(epochs)) && (Valid() ==> Inv(Abs()))
      ensures Chain(readyQueue, ready) && Chain(sleepQueue, sleeping) && currentTask == ready[pos]
      ensures Valid() <==> |old(ready)| == 1 || old(Deadline(Abs(), epochs)) != 0
      ensures |old(ready)| > 1 && old(Deadline(Abs(), epochs)) == 0 ==>
        forall r: seq<Task>, s: seq<Task> :: Chain(readyQueue, r) && Chain(sleepQueue, s) ==> !Separate(r, s)
    {
      hide Inv;
      if currentTask == readyQueue && readyQueue.next == null {
        ValidIsInv();
        return;
      }
      var sleeper: Task := currentTask;
      JoinSleepers(epochs);
      if sleeper.endOfSleep != 0 {
        SwitchAsleep();
        ValidIsInv();
      } else {
        SwitchUndecided(sleeper);
      }
    }

    /** The second half of sleep when the deadline is 0: the switch does not take the task off the ready list. */
    method SwitchUndecided(sleeper: Task)
      requires Chain(readyQueue, ready) && Distinct(ready) && |ready| > 1 && pos < |ready|
      requires sleeper == currentTask == ready[pos] && sleeper.endOfSleep == 0
      requires Leads(sleepQueue, sleeping, sleeper) && Apart(ready, sleeping)
      modifies this`currentTask, this`readyQueue, this`ready, this`pos, this`sleeping, ready`next
      ensures Abs() == Rotate(old(Abs())).(sleeping := old(sleeping + ready[pos..]))
      ensures Chain(readyQueue, ready) && Chain(sleepQueue, sleeping) && currentTask == ready[pos]
      ensures forall r: seq<Task>, s: seq<Task> :: Chain(readyQueue, r) && Chain(sleepQueue, s) ==> !Separate(r, s)
    {
      ghost var k := pos;
      ApartMembers(ready, sleeping);
      SwitchTask();
      assert Leads(sleepQueue, sleeping, sleeper);
      ChainFrom(readyQueue, ready, k);
      ChainJoin(sleepQueue, sleeping, sleeper, ready[k..]);
      forall r: seq<Task>, s: seq<Task> | Chain(readyQueue, r) && Chain(sleepQueue, s) ensures !Separate(r, s) {
        SharedTail(readyQueue, sleepQueue, ready, sleeping, k, r, s);
      }
      sleeping := sleeping + ready[k..];
    }

    /** The current task gets a child at the tail of the ready queue; both go on. */
    method Fork() returns (child: Task)
      requires Valid() && ready != []
      modifies this, ready`next
      ensures Valid() && fresh(child) && child.id == old(nextPid)
      ensures Enabled(old(Abs()), Event.Fork(child))
      ensures Abs() == Step(old(Abs()), Event.Fork(child)) && Inv(Abs())
      ensures ready == old(ready) + [child] && sleeping == old(sleeping)
      ensures currentTask == old(currentTask) == ready[old(pos)]
    {
      hide Inv, Separate, Timed;
      child := new Task(nextPid);
      nextPid := Wrap(nextPid + 1);
      JoinReady(child);
      ValidIsInv();
    }
  }
}
