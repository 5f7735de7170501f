/** Per-key single-flight locks kept in a table of weak references: a lock lives
    while some task waits for it or holds it. */
module SingleFlight {
  const PRUNE_ABOVE: nat := 1024

  datatype Task<Key> = Waiting(key: Key, lock: nat) | Holding(key: Key, lock: nat)

  /** The table, the tasks inside `single_flight` or owning a guard, and the next
      unused lock. */
  datatype State<Key(==)> = State(flights: map<Key, nat>, tasks: map<nat, Task<Key>>, unused: nat)

  datatype Step<Key> = Acquire(t: nat, key: Key) | Grab(t: nat) | Cancel(t: nat) | Release(t: nat)

  /** Some task keeps the lock alive, so its weak reference upgrades. */
  predicate Alive<Key(==)>(st: State<Key>, lock: nat) {
    exists t | t in st.tasks :: st.tasks[t].lock == lock
  }

  /** The table after the pruning a large table gets. */
  function Pruned<Key(==)>(st: State<Key>): map<Key, nat> {
    if |st.flights| > PRUNE_ABOVE
    then map k | k in st.flights && Alive(st, st.flights[k]) :: st.flights[k]
    else st.flights
  }

  predicate Enabled<Key(==)>(st: State<Key>, step: Step<Key>) {
    match step
    case Acquire(t, _) => t !in st.tasks
    case Grab(t) =>
      t in st.tasks && st.tasks[t].Waiting?
      && forall u | u in st.tasks && st.tasks[u].Holding? :: st.tasks[u].lock != st.tasks[t].lock
    case Cancel(t) => t in st.tasks && st.tasks[t].Waiting?
    case Release(t) => t in st.tasks && st.tasks[t].Holding?
  }

  function Next<Key(==)>(st: State<Key>, step: Step<Key>): State<Key>
    requires Enabled(st, step)
  {
    match step
    case Acquire(t, key) =>
      var table := Pruned(st);
      if key in table && Alive(st, table[key]) then
        st.(flights := table, tasks := st.tasks[t := Waiting(key, table[key])])
      else
        State(table[key := st.unused], st.tasks[t := Waiting(key, st.unused)], st.unused + 1)
    case Grab(t) => st.(tasks := st.tasks[t := Holding(st.tasks[t].key, st.tasks[t].lock)])
    case Cancel(t) => st.(tasks := st.tasks - {t})
    case Release(t) => st.(tasks := st.tasks - {t})
  }

  /** Every live lock of a key is the registered one. */
  ghost predicate Registered<Key>(st: State<Key>) {
    forall t | t in st.tasks :: st.tasks[t].key in st.flights && st.flights[st.tasks[t].key] == st.tasks[t].lock
  }

  ghost predicate LocksExclude<Key>(st: State<Key>) {
    forall t, u | t in st.tasks && u in st.tasks && st.tasks[t].Holding? && st.tasks[u].Holding?
                  && st.tasks[t].lock == st.tasks[u].lock :: t == u
  }

  ghost predicate Inv<Key>(st: State<Key>) {
    && Registered(st) && LocksExclude(st)
    && (forall t | t in st.tasks :: st.tasks[t].lock < st.unused)
  }

  lemma StepInv<Key>(st: State<Key>, step: Step<Key>)
    requires Inv(st) && Enabled(st, step)
    ensures Inv(Next(st, step))
  {
    if step.Acquire? {
      var table := Pruned(st);
      forall t | t in st.tasks ensures st.tasks[t].key in table && table[st.tasks[t].key] == st.tasks[t].lock {
        assert Alive(st, st.tasks[t].lock);
      }
    }
  }

  ghost predicate IsRun<Key>(states: seq<State<Key>>, steps: seq<Step<Key>>) {
    && |states| == |steps| + 1 && states[0] == State(map[], map[], 0)
    && forall i {:trigger steps[i]} | 0 <= i < |steps| ::
         Enabled(states[i], steps[i]) && states[i + 1] == Next(states[i], steps[i])
  }

  lemma {:induction false} RunInv<Key>(states: seq<State<Key>>, steps: seq<Step<Key>>, i: nat)
    requires IsRun(states, steps) && i < |states|
    ensures Inv(states[i])
  {
    if i > 0 {
      RunInv(states, steps, i - 1);
      StepInv(states[i - 1], steps[i - 1]);
    }
  }

  /** Mutual exclusion: in every interleaving of acquiring, waiting, cancelling,
      dropping and pruning, at most one guard per key exists at a time. */
  lemma AtMostOneGuard<Key>(states: seq<State<Key>>, steps: seq<Step<Key>>, i: nat, t: nat, u: nat)
    requires IsRun(states, steps) && i < |states|
    requires t in states[i].tasks && states[i].tasks[t].Holding?
    requires u in states[i].tasks && states[i].tasks[u].Holding?
    requires states[i].tasks[t].key == states[i].tasks[u].key
    ensures t == u
  {
    RunInv(states, steps, i);
  }

  /** No waiter is orphaned: a task waiting for a key waits for the very lock any
      guard of that key holds. */
  lemma WaitersShareTheGuardsLock<Key>(states: seq<State<Key>>, steps: seq<Step<Key>>, i: nat, t: nat, u: nat)
    requires IsRun(states, steps) && i < |states|
    requires t in states[i].tasks && u in states[i].tasks && states[i].tasks[t].key == states[i].tasks[u].key
    ensures states[i].tasks[t].lock == states[i].tasks[u].lock
  {
    RunInv(states, steps, i);
  }

  /** A registered lock has been handed out, to one key only. */
  ghost predicate OneKeyEach<Key>(flights: map<Key, nat>, unused: nat) {
    && (forall k | k in flights :: flights[k] < unused)
    && (forall k, l | k in flights && l in flights && flights[k] == flights[l] :: k == l)
  }

  lemma AcquireKeepsTable<Key>(st: State<Key>, t: nat, key: Key)
    requires OneKeyEach(st.flights, st.unused) && t !in st.tasks
    ensures var st' := Next(st, Acquire(t, key)); OneKeyEach(st'.flights, st'.unused)
  {
    assert OneKeyEach(Pruned(st), st.unused);
  }

  lemma {:induction false} RunTable<Key>(states: seq<State<Key>>, steps: seq<Step<Key>>, i: nat)
    requires IsRun(states, steps) && i < |states|
    ensures OneKeyEach(states[i].flights, states[i].unused)
  {
    if i > 0 {
      RunTable(states, steps, i - 1);
      var step := steps[i - 1];
      if step.Acquire? { AcquireKeepsTable(states[i - 1], step.t, step.key); }
    }
  }

  /** No deadlock: a waiting task can have the guard exactly while no guard of its
      key exists. */
  lemma WaiterCanGrab<Key>(states: seq<State<Key>>, steps: seq<Step<Key>>, i: nat, t: nat)
    requires IsRun(states, steps) && i < |states| && t in states[i].tasks && states[i].tasks[t].Waiting?
    ensures Enabled(states[i], Grab(t)) <==>
              forall u | u in states[i].tasks && states[i].tasks[u].Holding? ::
                states[i].tasks[u].key != states[i].tasks[t].key
  {
    RunInv(states, steps, i);
    RunTable(states, steps, i);
  }

  /** Acquiring on a table of more than 1024 keys drops the keys nobody uses, and
      only those; on a smaller one it drops nothing. */
  lemma PrunesExactly<Key>(st: State<Key>, t: nat, key: Key, k: Key)
    requires Enabled(st, Acquire(t, key)) && k != key
    ensures k in Next(st, Acquire(t, key)).flights <==>
              k in st.flights && (|st.flights| <= 1024 || exists u | u in st.tasks :: st.tasks[u].lock == st.flights[k])
  {
  }
}
