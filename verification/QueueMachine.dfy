/** The keyed retry queue as a machine of atomic steps: what happens between two releases of its mutex. */
module QueueMachine {

  /** A submitted value; every submission has a ticket of its own. */
  datatype Entry<K, V> = Entry(key: K, value: V, ticket: nat)

  /** Where the main loop is: waiting for a tick or the shutdown, having received a tick, past the check of the
      shutdown, executing a value, gone, or crashed by popping from an empty list. */
  datatype Loop<K, V> = Waiting | Ticked | Popping | Calling(entry: Entry<K, V>, canceled: bool) | Ended | Crashed

  /** `armed` and `tick` describe the timer: it is going to fire, it has fired. `latest` and `done` are history:
      the last ticket of each key, and the tickets whose execution succeeded. */
  datatype State<K, V> = State(
    queue: seq<Entry<K, V>>, len: int, armed: bool, tick: bool, loop: Loop<K, V>, shutdown: bool,
    next: nat, latest: map<K, nat>, done: set<nat>)

  datatype Action<K, V> =
    | Submit(key: K, value: V)
    | Fire
    | TakeTick
    | CheckShutdown
    | PopFront
    | Finish(failed: bool)
    | CloseShutdown
    | CancelRunning
    | Quit
    | StopTimer

  function Initial<K, V>(): State<K, V> {
    State([], 0, false, false, Waiting, false, 0, map[], {})
  }

  ghost predicate HasKey<K, V>(queue: seq<Entry<K, V>>, key: K) {
    exists i :: 0 <= i < |queue| && queue[i].key == key
  }

  ghost function Position<K, V>(queue: seq<Entry<K, V>>, key: K): (i: nat)
    requires HasKey(queue, key)
    ensures i < |queue| && queue[i].key == key
  {
    var i :| 0 <= i < |queue| && queue[i].key == key;
    i
  }

  function Without<T>(s: seq<T>, i: nat): seq<T>
    requires i < |s|
  {
    s[..i] + s[i + 1..]
  }

  ghost function Remove<K, V>(queue: seq<Entry<K, V>>, key: K): seq<Entry<K, V>> {
    if HasKey(queue, key) then Without(queue, Position(queue, key)) else queue
  }

  ghost function Running<K, V>(s: State<K, V>): nat {
    if s.loop.Calling? then 1 else 0
  }

  ghost predicate Enabled<K, V>(s: State<K, V>, a: Action<K, V>) {
    match a
    case Submit(_, _) => true
    case Fire => s.armed
    case TakeTick => s.loop.Waiting? && s.tick
    case CheckShutdown => s.loop.Ticked?
    case PopFront => s.loop.Popping?
    case Finish(_) => s.loop.Calling?
    case CloseShutdown => !s.shutdown
    case CancelRunning => s.shutdown
    case Quit => s.loop.Waiting? && s.shutdown
    case StopTimer => s.loop.Ended?
  }

  /** The effect of a step. */
  ghost function Next<K, V>(s: State<K, V>, a: Action<K, V>): State<K, V>
    requires Enabled(s, a)
  {
    match a
    case Submit(key, value) => Submitted(s, key, value)
    case Fire => s.(armed := false, tick := true)
    case TakeTick => s.(tick := false, loop := Ticked)
    case CheckShutdown => s.(loop := if s.shutdown then Waiting else Popping)
    case PopFront => Popped(s)
    case Finish(failed) => Finished(s, failed)
    case CloseShutdown => s.(shutdown := true)
    case CancelRunning => s.(loop := if s.loop.Calling? then s.loop.(canceled := true) else s.loop)
    case Quit => s.(loop := Ended)
    case StopTimer => s.(armed := false)
  }

  ghost function Submitted<K, V>(s: State<K, V>, key: K, value: V): State<K, V> {
    var removed := if HasKey(s.queue, key) then 1 else 0;
    s.(queue := Remove(s.queue, key) + [Entry(key, value, s.next)],
       len := s.len - removed + 1,
       armed := s.armed || s.len == 0,
       loop := if s.loop.Calling? && s.loop.entry.key == key then s.loop.(canceled := true) else s.loop,
       next := s.next + 1,
       latest := s.latest[key := s.next])
  }

  ghost function Popped<K, V>(s: State<K, V>): State<K, V> {
    if s.queue == [] then s.(loop := Crashed) else s.(queue := s.queue[1..], loop := Calling(s.queue[0], false))
  }

  ghost function Finished<K, V>(s: State<K, V>, failed: bool): State<K, V>
    requires s.loop.Calling?
  {
    var entry := s.loop.entry;
    if failed && !s.loop.canceled then
      if HasKey(s.queue, entry.key) then
        s.(len := s.len - 1, loop := Waiting, armed := true)
      else
        s.(queue := s.queue + [entry], loop := Waiting, armed := true)
    else
      s.(len := s.len - 1, loop := Waiting, armed := s.armed || s.len - 1 > 0,
         done := if failed then s.done else s.done + {entry.ticket})
  }

  lemma NextCases<K, V>(s: State<K, V>)
    ensures forall key, value ::
      Enabled(s, Submit(key, value)) && Next(s, Submit(key, value)) == Submitted(s, key, value)
    ensures s.loop.Popping? ==> Enabled(s, PopFront) && Next(s, PopFront) == Popped(s)
    ensures s.loop.Calling? ==> forall failed ::
      Enabled(s, Finish(failed)) && Next(s, Finish(failed)) == Finished(s, failed)
  {
  }

  // ----- the invariant -----

  ghost predicate DistinctKeys<K, V>(queue: seq<Entry<K, V>>) {
    forall i, j | 0 <= i < j < |queue| :: queue[i].key != queue[j].key
  }

  /** The pieces of evidence that the main loop will look at the queue again. */
  ghost function Ticks<K, V>(s: State<K, V>): nat {
    (if s.armed then 1 else 0) + (if s.tick then 1 else 0) + (if s.loop.Ticked? || s.loop.Popping? then 1 else 0)
  }

  ghost predicate TimerInvariant<K, V>(s: State<K, V>) {
    && !s.loop.Crashed?
    && s.len == |s.queue| + Running(s)
    && DistinctKeys(s.queue)
    && Ticks(s) + Running(s) <= 1
    && (Ticks(s) > 0 ==> s.queue != [])
    && (!s.shutdown && s.queue != [] ==> Ticks(s) + Running(s) == 1)
    && (s.loop.Ended? ==> s.shutdown)
    && (s.loop.Calling? && HasKey(s.queue, s.loop.entry.key) ==> s.loop.canceled)
    && (s.loop.Calling? && s.loop.canceled && !s.shutdown ==> HasKey(s.queue, s.loop.entry.key))
  }

  /** The last value submitted for `key` is queued, being executed and not canceled, or was executed. */
  ghost predicate Safe<K, V>(s: State<K, V>, key: K)
    requires key in s.latest
  {
    || (exists i :: 0 <= i < |s.queue| && s.queue[i].key == key && s.queue[i].ticket == s.latest[key])
    || (s.loop.Calling? && !s.loop.canceled && s.loop.entry.key == key && s.loop.entry.ticket == s.latest[key])
    || s.latest[key] in s.done
  }

  ghost predicate HistoryInvariant<K, V>(s: State<K, V>) {
    && (forall i | 0 <= i < |s.queue| ::
          s.queue[i].key in s.latest && s.latest[s.queue[i].key] == s.queue[i].ticket)
    && (s.loop.Calling? ==> s.loop.entry.key in s.latest)
    && (s.loop.Calling? && !HasKey(s.queue, s.loop.entry.key) ==> s.latest[s.loop.entry.key] == s.loop.entry.ticket)
    && (!s.shutdown ==> forall key | key in s.latest :: Safe(s, key))
  }

  ghost predicate Invariant<K, V>(s: State<K, V>) {
    TimerInvariant(s) && HistoryInvariant(s)
  }

  lemma WithoutAt<T>(s: seq<T>, i: nat)
    requires i < |s|
    ensures |Without(s, i)| == |s| - 1
    ensures forall j: nat | j < |s| - 1 :: Without(s, i)[j] == s[if j < i then j else j + 1]
  {
  }

  lemma WithoutDistinct<K, V>(queue: seq<Entry<K, V>>, i: nat)
    requires DistinctKeys(queue) && i < |queue|
    ensures DistinctKeys(Without(queue, i)) && !HasKey(Without(queue, i), queue[i].key)
  {
    hide Without;
    WithoutAt(queue, i);
  }

  lemma WithoutHas<K, V>(queue: seq<Entry<K, V>>, i: nat, k: K)
    requires i < |queue| && k != queue[i].key
    ensures HasKey(Without(queue, i), k) <==> HasKey(queue, k)
  {
    hide Without;
    WithoutAt(queue, i);
    if HasKey(queue, k) {
      var j := Position(queue, k);
      assert Without(queue, i)[if j < i then j else j - 1].key == k;
    }
  }

  lemma RemoveShape<K, V>(queue: seq<Entry<K, V>>, key: K)
    requires DistinctKeys(queue)
    ensures |Remove(queue, key)| == |queue| - (if HasKey(queue, key) then 1 else 0)
    ensures DistinctKeys(Remove(queue, key))
    ensures forall k :: HasKey(Remove(queue, key), k) <==> HasKey(queue, k) && k != key
  {
    hide Without, DistinctKeys, HasKey;
    if HasKey(queue, key) {
      var p := Position(queue, key);
      WithoutAt(queue, p);
      WithoutDistinct(queue, p);
      forall k | k != key ensures HasKey(Remove(queue, key), k) <==> HasKey(queue, k) {
        WithoutHas(queue, p, k);
      }
    }
  }

  /** Where the i-th value is after the value of another key was removed. */
  lemma RemoveKeeps<K, V>(queue: seq<Entry<K, V>>, key: K, i: nat) returns (j: nat)
    requires i < |queue| && queue[i].key != key
    ensures j <= i && j < |Remove(queue, key)| && Remove(queue, key)[j] == queue[i]
  {
    j := if HasKey(queue, key) && Position(queue, key) < i then i - 1 else i;
  }

  /** Where the j-th value was before. */
  lemma RemoveKept<K, V>(queue: seq<Entry<K, V>>, key: K, j: nat) returns (i: nat)
    requires j < |Remove(queue, key)|
    ensures i < |queue| && Remove(queue, key)[j] == queue[i]
  {
    i := if HasKey(queue, key) && Position(queue, key) <= j then j + 1 else j;
  }

  lemma AppendShape<K, V>(queue: seq<Entry<K, V>>, e: Entry<K, V>)
    requires DistinctKeys(queue) && !HasKey(queue, e.key)
    ensures DistinctKeys(queue + [e])
    ensures forall key :: HasKey(queue + [e], key) <==> HasKey(queue, key) || key == e.key
  {
    var r := queue + [e];
    forall key | HasKey(queue, key) ensures HasKey(r, key) {
      var i :| 0 <= i < |queue| && queue[i].key == key;
      assert r[i].key == key;
    }
    assert r[|queue|] == e;
  }

  lemma SubmitTimer<K, V>(s: State<K, V>, key: K, value: V)
    requires TimerInvariant(s)
    ensures TimerInvariant(Next(s, Submit(key, value)))
  {
    var removed, e := Remove(s.queue, key), Entry(key, value, s.next);
    RemoveShape(s.queue, key);
    AppendShape(removed, e);
  }

  lemma PopTimer<K, V>(s: State<K, V>)
    requires TimerInvariant(s) && s.loop.Popping?
    ensures TimerInvariant(Next(s, PopFront))
  {
    var rest := s.queue[1..];
    forall i | 0 <= i < |rest| ensures rest[i].key != s.queue[0].key {
      assert rest[i] == s.queue[i + 1];
    }
  }

  lemma FinishTimer<K, V>(s: State<K, V>, failed: bool)
    requires TimerInvariant(s) && s.loop.Calling?
    ensures TimerInvariant(Finished(s, failed))
  {
    if failed && !s.loop.canceled {
      AppendShape(s.queue, s.loop.entry);
    }
  }

  /** Every step keeps the timer, the length and the running call in step with the queue. */
  lemma TimerStep<K, V>(s: State<K, V>, a: Action<K, V>)
    requires TimerInvariant(s) && Enabled(s, a)
    ensures TimerInvariant(Next(s, a))
  {
    match a
    case Submit(key, value) => SubmitTimer(s, key, value);
    case PopFront => PopTimer(s);
    case Finish(failed) => FinishTimer(s, failed);
    case _ =>
  }

  // ----- nothing is lost -----

  lemma SubmitSafe<K, V>(s: State<K, V>, key: K, value: V, k: K)
    requires Invariant(s) && k in Next(s, Submit(key, value)).latest
    requires k != key ==> Safe(s, k)
    ensures Safe(Next(s, Submit(key, value)), k)
  {
    var s', removed := Next(s, Submit(key, value)), Remove(s.queue, key);
    if k == key {
      assert s'.queue[|removed|] == Entry(key, value, s.next);
    } else if i :| 0 <= i < |s.queue| && s.queue[i].key == k && s.queue[i].ticket == s.latest[k] {
      var j := RemoveKeeps(s.queue, key, i);
      assert s'.queue[j] == s.queue[i];
    }
  }

  lemma SubmitHistory<K, V>(s: State<K, V>, key: K, value: V)
    requires Invariant(s)
    ensures HistoryInvariant(Next(s, Submit(key, value)))
  {
    var s', removed := Next(s, Submit(key, value)), Remove(s.queue, key);
    RemoveShape(s.queue, key);
    AppendShape(removed, Entry(key, value, s.next));
    forall j | 0 <= j < |removed|
      ensures removed[j].key in s.latest && s.latest[removed[j].key] == removed[j].ticket && removed[j].key != key
    {
      var i := RemoveKept(s.queue, key, j);
      assert HasKey(removed, removed[j].key);
    }
    if !s.shutdown {
      forall k | k in s'.latest ensures Safe(s', k) {
        SubmitSafe(s, key, value, k);
      }
    }
  }

  lemma PopHistory<K, V>(s: State<K, V>)
    requires Invariant(s) && s.loop.Popping?
    ensures HistoryInvariant(Next(s, PopFront))
  {
    var s' := Next(s, PopFront);
    if !s.shutdown {
      forall k | k in s'.latest ensures Safe(s', k) {
        assert Safe(s, k);
        if i :| 0 < i < |s.queue| && s.queue[i].key == k && s.queue[i].ticket == s.latest[k] {
          assert s'.queue[i - 1] == s.queue[i];
        }
      }
    }
  }

  lemma FinishHistory<K, V>(s: State<K, V>, failed: bool)
    requires Invariant(s) && s.loop.Calling?
    ensures HistoryInvariant(Finished(s, failed))
  {
    var s', key := Finished(s, failed), s.loop.entry.key;
    if !s.shutdown {
      forall k | k in s'.latest ensures Safe(s', k) {
        assert Safe(s, k);
        if i :| 0 <= i < |s.queue| && s.queue[i].key == k && s.queue[i].ticket == s.latest[k] {
          assert s'.queue[i] == s.queue[i];
        } else if k == key && failed && !s.loop.canceled {
          assert s'.queue[|s.queue|] == s.loop.entry;
        }
      }
    }
  }

  lemma OtherHistory<K, V>(s: State<K, V>, a: Action<K, V>)
    requires Invariant(s) && Enabled(s, a)
    requires !a.Submit? && !a.PopFront? && !a.Finish?
    ensures HistoryInvariant(Next(s, a))
  {
    if !Next(s, a).shutdown {
      forall k | k in s.latest ensures Safe(Next(s, a), k) {
        assert Safe(s, k);
      }
    }
  }

  /** Every step keeps the invariant. */
  lemma Step<K, V>(s: State<K, V>, a: Action<K, V>)
    requires Invariant(s) && Enabled(s, a)
    ensures Invariant(Next(s, a))
  {
    TimerStep(s, a);
    match a
    case Submit(key, value) => SubmitHistory(s, key, value);
    case PopFront => PopHistory(s);
    case Finish(failed) => FinishHistory(s, failed);
    case _ => OtherHistory(s, a);
  }

  // ----- runs -----

  ghost predicate IsRun<K, V>(s: State<K, V>, run: seq<Action<K, V>>)
    decreases |run|
  {
    run == [] || (Enabled(s, run[0]) && IsRun(Next(s, run[0]), run[1..]))
  }

  ghost function RunFrom<K, V>(s: State<K, V>, run: seq<Action<K, V>>): State<K, V>
    requires IsRun(s, run)
    decreases |run|
  {
    if run == [] then s else RunFrom(Next(s, run[0]), run[1..])
  }

  lemma {:induction false} RunInvariant<K, V>(s: State<K, V>, run: seq<Action<K, V>>)
    requires Invariant(s) && IsRun(s, run)
    ensures Invariant(RunFrom(s, run))
    decreases |run|
  {
    if run != [] {
      Step(s, run[0]);
      RunInvariant(Next(s, run[0]), run[1..]);
    }
  }

  /** In every reachable state the timer fits the queue: nothing crashes, and before the shutdown a queued
      value waits for exactly one tick or for the call that is running. */
  lemma TimerTheorem<K, V>(run: seq<Action<K, V>>)
    requires IsRun(Initial(), run)
    ensures TimerInvariant(RunFrom(Initial(), run))
  {
    RunInvariant(Initial(), run);
  }

  /** In every reachable state a running call that was not canceled has no successor in the queue: so a value that
      is retried never meets a new value of its key. */
  lemma RetriedKeyIsAbsent<K, V>(run: seq<Action<K, V>>)
    requires IsRun(Initial(), run)
    requires RunFrom(Initial(), run).loop.Calling? && !RunFrom(Initial(), run).loop.canceled
    ensures !HasKey(RunFrom(Initial(), run).queue, RunFrom(Initial(), run).loop.entry.key)
  {
    RunInvariant(Initial(), run);
  }

  /** In every reachable state before the shutdown, the running call is canceled if and only if its key is queued
      again. */
  lemma CanceledIffReplaced<K, V>(run: seq<Action<K, V>>)
    requires IsRun(Initial(), run)
    requires RunFrom(Initial(), run).loop.Calling? && !RunFrom(Initial(), run).shutdown
    ensures RunFrom(Initial(), run).loop.canceled <==>
      HasKey(RunFrom(Initial(), run).queue, RunFrom(Initial(), run).loop.entry.key)
  {
    RunInvariant(Initial(), run);
  }

  // ----- what the tickets stand for -----

  /** The submissions of a run, in order; the i-th one has the ticket i. */
  function Log<K, V>(run: seq<Action<K, V>>): seq<(K, V)> {
    if run == [] then [] else Submission(run[0]) + Log(run[1..])
  }

  function Submission<K, V>(a: Action<K, V>): seq<(K, V)> {
    if a.Submit? then [(a.key, a.value)] else []
  }

  ghost predicate FromLog<K, V>(log: seq<(K, V)>, e: Entry<K, V>) {
    e.ticket < |log| && log[e.ticket] == (e.key, e.value)
  }

  /** Whatever is queued or running is exactly what was submitted under its ticket, and `latest` tells the last
      submission of each key. */
  ghost predicate LogInvariant<K, V>(s: State<K, V>, log: seq<(K, V)>) {
    && s.next == |log|
    && (forall i | 0 <= i < |s.queue| :: FromLog(log, s.queue[i]))
    && (s.loop.Calling? ==> FromLog(log, s.loop.entry))
    && (forall i | 0 <= i < |log| :: log[i].0 in s.latest && i <= s.latest[log[i].0])
    && (forall key | key in s.latest :: s.latest[key] < |log| && log[s.latest[key]].0 == key)
  }

  lemma SubmitLog<K, V>(s: State<K, V>, key: K, value: V, log: seq<(K, V)>)
    requires LogInvariant(s, log)
    ensures LogInvariant(Next(s, Submit(key, value)), log + [(key, value)])
  {
    var removed := Remove(s.queue, key);
    forall j | 0 <= j < |removed| ensures FromLog(log + [(key, value)], removed[j]) {
      var i := RemoveKept(s.queue, key, j);
      assert FromLog(log, s.queue[i]);
    }
  }

  lemma StepLog<K, V>(s: State<K, V>, a: Action<K, V>, log: seq<(K, V)>)
    requires LogInvariant(s, log) && Enabled(s, a)
    ensures LogInvariant(Next(s, a), log + Submission(a))
  {
    assert log + [] == log;
    match a
    case Submit(key, value) => SubmitLog(s, key, value, log);
    case PopFront => PopLog(s, log);
    case Finish(failed) => FinishLog(s, failed, log);
    case _ =>
  }

  lemma PopLog<K, V>(s: State<K, V>, log: seq<(K, V)>)
    requires LogInvariant(s, log)
    ensures LogInvariant(Popped(s), log)
  {
    hide FromLog;
  }

  lemma FinishLog<K, V>(s: State<K, V>, failed: bool, log: seq<(K, V)>)
    requires LogInvariant(s, log) && s.loop.Calling?
    ensures LogInvariant(Finished(s, failed), log)
  {
    hide FromLog, HasKey;
  }

  lemma DoneStep<K, V>(s: State<K, V>, a: Action<K, V>, ticket: nat)
    requires Enabled(s, a) && ticket in Next(s, a).done && ticket !in s.done
    ensures a == Finish(false) && s.loop.Calling? && s.loop.entry.ticket == ticket
  {
  }

  lemma {:induction false} RunLog<K, V>(s: State<K, V>, run: seq<Action<K, V>>, log: seq<(K, V)>)
    requires LogInvariant(s, log) && IsRun(s, run)
    ensures LogInvariant(RunFrom(s, run), log + Log(run))
    decreases |run|
  {
    hide LogInvariant, Enabled, Next;
    if run == [] {
      assert log + [] == log;
    } else {
      StepLog(s, run[0], log);
      RunLog(Next(s, run[0]), run[1..], log + Submission(run[0]));
      assert log + Submission(run[0]) + Log(run[1..]) == log + Log(run);
    }
  }

  /** An execution of `e` succeeds during the run. */
  ghost predicate Succeeds<K, V>(s: State<K, V>, run: seq<Action<K, V>>, e: Entry<K, V>)
    requires IsRun(s, run)
    decreases |run|
  {
    run != [] && (
      (run[0] == Finish(false) && s.loop.Calling? && s.loop.entry == e) || Succeeds(Next(s, run[0]), run[1..], e))
  }

  lemma {:induction false} DoneSucceeded<K, V>(s: State<K, V>, run: seq<Action<K, V>>, log: seq<(K, V)>, ticket: nat)
    requires LogInvariant(s, log) && IsRun(s, run)
    requires ticket in RunFrom(s, run).done && ticket !in s.done
    ensures ticket < |log + Log(run)|
    ensures var (key, value) := (log + Log(run))[ticket]; Succeeds(s, run, Entry(key, value, ticket))
    decreases |run|
  {
    hide Enabled, Next, LogInvariant;
    var s', log' := Next(s, run[0]), log + Submission(run[0]);
    assert log' + Log(run[1..]) == log + Log(run);
    if ticket in s'.done {
      DoneStep(s, run[0], ticket);
      RunningFromLog(s, log);
      assert (log + Log(run))[ticket] == log[ticket];
    } else {
      StepLog(s, run[0], log);
      DoneSucceeded(s', run[1..], log', ticket);
    }
  }

  lemma RunningFromLog<K, V>(s: State<K, V>, log: seq<(K, V)>)
    requires LogInvariant(s, log) && s.loop.Calling?
    ensures FromLog(log, s.loop.entry)
  {
  }

  /** In every reachable state before the shutdown: the last value submitted for a key is queued, or being executed
      without having been canceled, or an execution of it has succeeded. */
  lemma NothingLost<K, V>(run: seq<Action<K, V>>, i: nat)
    requires IsRun(Initial(), run) && !RunFrom(Initial(), run).shutdown
    requires i < |Log(run)| && forall j | i < j < |Log(run)| :: Log(run)[j].0 != Log(run)[i].0
    ensures var s, e := RunFrom(Initial(), run), Entry(Log(run)[i].0, Log(run)[i].1, i);
      || e in s.queue
      || (s.loop.Calling? && !s.loop.canceled && s.loop.entry == e)
      || Succeeds(Initial(), run, e)
  {
    hide IsRun, RunFrom, Log, Succeeds, TimerInvariant;
    var s, key := RunFrom(Initial(), run), Log(run)[i].0;
    InitiallyDone<K, V>();
    RunInvariant(Initial(), run);
    RunLog(Initial(), run, []);
    assert [] + Log(run) == Log(run);
    assert s.latest[key] == i && Safe(s, key);
    if i in s.done {
      DoneSucceeded(Initial(), run, [], i);
    }
  }

  lemma InitiallyDone<K, V>()
    ensures Initial<K, V>().done == {} && LogInvariant(Initial<K, V>(), []) && Invariant(Initial<K, V>())
  {
  }

  /** And nothing else is ever queued or executed than what was submitted. */
  lemma OnlySubmitted<K, V>(run: seq<Action<K, V>>, e: Entry<K, V>)
    requires IsRun(Initial(), run)
    requires var s := RunFrom(Initial(), run); e in s.queue || (s.loop.Calling? && s.loop.entry == e)
    ensures FromLog(Log(run), e)
  {
    hide IsRun, RunFrom, Log;
    InitiallyDone<K, V>();
    RunLog(Initial(), run, []);
    assert [] + Log(run) == Log(run);
  }

  // ----- the shutdown -----

  ghost function Pops<K, V>(run: seq<Action<K, V>>): nat {
    if run == [] then 0 else (if run[0].PopFront? then 1 else 0) + Pops(run[1..])
  }

  /** Once the shutdown is closed no call starts any more, but for one if the main loop has just checked. */
  lemma {:induction false} NoCallsAfterShutdown<K, V>(s: State<K, V>, run: seq<Action<K, V>>)
    requires IsRun(s, run) && s.shutdown
    ensures Pops(run) <= if s.loop.Popping? then 1 else 0
    decreases |run|
  {
    if run != [] {
      NoCallsAfterShutdown(Next(s, run[0]), run[1..]);
    }
  }

  /** After the cancellation, unless the main loop has just checked: no call is running that is not canceled. */
  ghost predicate Settled<K, V>(s: State<K, V>) {
    s.shutdown && !s.loop.Popping? && (s.loop.Calling? ==> s.loop.canceled)
  }

  /** Stop cancels what is running; from then on nothing is retried, and the queue only changes by submissions. */
  lemma StopSettles<K, V>(s: State<K, V>, a: Action<K, V>)
    requires Enabled(s, a) && (Settled(s) || (a.CancelRunning? && !s.loop.Popping?))
    ensures Settled(Next(s, a))
    ensures !a.Submit? ==> Next(s, a).queue == s.queue
  {
  }

  lemma OneStep<K, V>(s: State<K, V>, a: Action<K, V>)
    requires Enabled(s, a)
    ensures IsRun(s, [a]) && RunFrom(s, [a]) == Next(s, a)
  {
    assert [a][1..] == [];
  }

  /** So the main loop ends at once, or after the step that it is at. */
  lemma StopEnds<K, V>(s: State<K, V>) returns (run: seq<Action<K, V>>)
    requires Invariant(s) && Settled(s)
    ensures IsRun(s, run) && RunFrom(s, run).loop.Ended? && |run| <= 2
    ensures forall a | a in run :: a.CheckShutdown? || a.Finish? || a.Quit?
  {
    if s.loop.Ended? {
      run := [];
    } else if s.loop.Waiting? {
      run := [Quit];
      OneStep(s, Quit);
    } else {
      var a := if s.loop.Ticked? then CheckShutdown else Finish(false);
      run := [a, Quit];
      assert run[1..] == [Action<K, V>.Quit];
      OneStep(Next(s, a), Quit);
    }
  }

  /** Some step of the run starts to execute `e`. */
  ghost predicate Executes<K, V>(s: State<K, V>, run: seq<Action<K, V>>, e: Entry<K, V>)
    requires IsRun(s, run)
    decreases |run|
  {
    run != [] && (
      (run[0].PopFront? && Next(s, run[0]).loop == Calling(e, false)) || Executes(Next(s, run[0]), run[1..], e))
  }

  /** A queued value moves ahead with every pop and is never overtaken, unless it is replaced. */
  lemma NeverOvertaken<K, V>(s: State<K, V>, a: Action<K, V>, i: nat) returns (j: nat)
    requires Invariant(s) && Enabled(s, a) && i < |s.queue|
    requires a.Submit? ==> a.key != s.queue[i].key
    requires a.PopFront? ==> i > 0
    ensures j < |Next(s, a).queue| && Next(s, a).queue[j] == s.queue[i]
    ensures j <= if a.PopFront? then i - 1 else i
  {
    j := if a.PopFront? then i - 1 else i;
    if a.Submit? {
      j := RemoveKeeps(s.queue, a.key, i);
    }
  }

  /** First in, first out: after more pops than there were values before it, a value has been executed,
      unless its key was submitted again. */
  lemma {:induction false} Fifo<K, V>(s: State<K, V>, run: seq<Action<K, V>>, i: nat)
    requires Invariant(s) && IsRun(s, run) && i < |s.queue| && i < Pops(run)
    requires forall a | a in run && a.Submit? :: a.key != s.queue[i].key
    ensures Executes(s, run, s.queue[i])
    decreases |run|
  {
    var a := run[0];
    assert a in run;
    if !(a.PopFront? && i == 0) {
      var j := NeverOvertaken(s, a, i);
      Step(s, a);
      assert forall b | b in run[1..] :: b in run;
      Fifo(Next(s, a), run[1..], j);
    }
  }

  // ----- size -----

  ghost function Keys<K, V>(queue: seq<Entry<K, V>>): set<K> {
    set i | 0 <= i < |queue| :: queue[i].key
  }

  lemma {:induction false} KeysSize<K, V>(queue: seq<Entry<K, V>>)
    requires DistinctKeys(queue)
    ensures |Keys(queue)| == |queue|
  {
    if queue == [] {
      assert Keys(queue) == {};
    } else {
      var n := |queue| - 1;
      KeysSize(queue[..n]);
      assert Keys(queue) == Keys(queue[..n]) + {queue[n].key};
    }
  }

  /** The queue holds at most one value per key ever submitted; its length may count one more, the value that
      is being executed while its replacement is queued. */
  lemma SizeBound<K, V>(s: State<K, V>)
    requires Invariant(s)
    ensures |s.queue| <= |s.latest|
    ensures s.len <= |s.latest| + 1
  {
    KeysSize(s.queue);
    assert Keys(s.queue) <= s.latest.Keys;
    assert s.latest.Keys == Keys(s.queue) + (s.latest.Keys - Keys(s.queue));
  }
}
