/** The keyed retry queue. Each method is what one goroutine does while it holds the mutex, or one step of the
    main loop or of the timer; any interleaving of them is a run of the machine. */
module KeyedQueue {
  import opened ByteStrings
  import opened QueueMachine

  /** An element of the list. */
  class Element<K(==), V> {
    const key: K
    const value: V
    ghost const ticket: nat

    constructor (key: K, value: V, ghost ticket: nat)
      ensures this.key == key && this.value == value && this.ticket == ticket
    {
      this.key, this.value, this.ticket := key, value, ticket;
    }

    ghost function Abstract(): Entry<K, V> {
      Entry(key, value, ticket)
    }
  }

  ghost function Entries<K, V>(q: seq<Element<K, V>>): (r: seq<Entry<K, V>>)
    ensures |r| == |q|
    ensures forall i | 0 <= i < |q| :: r[i] == q[i].Abstract()
  {
    seq(|q|, i requires 0 <= i < |q| => q[i].Abstract())
  }

  ghost predicate IsIndexed<K, V>(q: seq<Element<K, V>>, byKey: map<K, Element<K, V>>) {
    && (forall i | 0 <= i < |q| :: q[i].key in byKey && byKey[q[i].key] == q[i])
    && (forall k | k in byKey :: HasKey(Entries(q), k))
  }

  lemma EntriesWithout<K, V>(q: seq<Element<K, V>>, i: nat)
    requires i < |q|
    ensures Entries(Without(q, i)) == Without(Entries(q), i)
  {
  }

  lemma IndexedWithout<K, V>(q: seq<Element<K, V>>, byKey: map<K, Element<K, V>>, i: nat)
    requires IsIndexed(q, byKey) && DistinctKeys(Entries(q)) && i < |q|
    ensures IsIndexed(Without(q, i), byKey - {q[i].key})
  {
    hide Without, DistinctKeys, HasKey, Entries;
    var rest, entries := Without(q, i), Without(Entries(q), i);
    EntriesWithout(q, i);
    WithoutAt(q, i);
    WithoutDistinct(Entries(q), i);
    forall j | 0 <= j < |rest| ensures rest[j].key != q[i].key {
      NoKey(entries, q[i].key, j);
    }
    forall k | k in byKey && k != q[i].key ensures HasKey(entries, k) {
      WithoutHas(Entries(q), i, k);
    }
  }

  lemma NoKey<K, V>(entries: seq<Entry<K, V>>, key: K, j: nat)
    requires !HasKey(entries, key) && j < |entries|
    ensures entries[j].key != key
  {
  }

  lemma IndexedSnoc<K, V>(q: seq<Element<K, V>>, byKey: map<K, Element<K, V>>, e: Element<K, V>)
    requires IsIndexed(q, byKey) && DistinctKeys(Entries(q)) && e.key !in byKey
    ensures IsIndexed(q + [e], byKey[e.key := e])
    ensures Entries(q + [e]) == Entries(q) + [e.Abstract()]
  {
    hide DistinctKeys, HasKey;
    assert Entries(q + [e]) == Entries(q) + [e.Abstract()];
    KeyInIndex(q, byKey, e.key);
    AppendShape(Entries(q), e.Abstract());
  }

  lemma KeyInIndex<K, V>(q: seq<Element<K, V>>, byKey: map<K, Element<K, V>>, key: K)
    requires IsIndexed(q, byKey)
    ensures key in byKey <==> HasKey(Entries(q), key)
  {
  }

  class KeyedQueue<K(==), V> {
    /** the key that is being executed, and whether the context of that execution is canceled */
    var running: Option<K>
    var canceled: bool
    var queue: seq<Element<K, V>>
    var byKey: map<K, Element<K, V>>
    var len: int
    /** the timer is armed, and its channel holds a tick */
    var armed: bool
    var tick: bool
    var shutdown: bool

    /** where the main loop is; `canceled` is kept in the field */
    ghost var loop: Loop<K, V>
    ghost var next: nat
    ghost var latest: map<K, nat>
    ghost var done: set<nat>

    ghost function Abstract(): State<K, V>
      reads this
    {
      State(Entries(queue), len, armed, tick,
            if loop.Calling? then Calling(loop.entry, canceled) else loop, shutdown, next, latest, done)
    }

    /** byKey refers to exactly the elements of the list. */
    ghost predicate Indexed()
      reads this`queue, this`byKey
    {
      IsIndexed(queue, byKey)
    }

    ghost predicate Valid()
      reads this
    {
      && Indexed()
      && Invariant(Abstract())
      && running == (if loop.Calling? then Some(loop.entry.key) else None)
    }

    constructor ()
      ensures Valid() && Abstract() == Initial()
    {
      running, canceled := None, false;
      queue, byKey, len := [], map[], 0;
      armed, tick, shutdown := false, false, false;
      loop, next, latest, done := Waiting, 0, map[], {};
      new;
      assert Entries(queue) == [];
    }

    method Len() returns (n: int)
      requires Valid()
      ensures n == Abstract().len == |queue| + (if running.Some? then 1 else 0)
    {
      n := len;
    }

    method Submit(key: K, value: V)
      requires Valid()
      modifies this
      ensures Valid() && Abstract() == Next(old(Abstract()), QueueMachine.Submit(key, value))
    {
      hide Invariant, IsIndexed, DistinctKeys, HasKey, Remove, Entries, Next, Enabled;
      ghost var s := Abstract();
      NextCases(s);
      Step(s, QueueMachine.Submit(key, value));
      Facts(key);
      Wake(key);
      Replace(key, value, next);
      next, latest := next + 1, latest[key := next];
      assert Abstract() == Submitted(s, key, value);
    }

    /** Starts the timer for the first element, and cancels an execution of the same key. */
    method Wake(key: K)
      modifies this`armed, this`canceled
      ensures armed == (old(armed) || len == 0)
      ensures canceled == (old(canceled) || running == Some(key))
    {
      if len == 0 {
        armed := true;
      }
      if running == Some(key) {
        canceled := true;
      }
    }

    lemma Facts(key: K)
      requires Valid()
      ensures DistinctKeys(Entries(queue))
      ensures key in byKey <==> HasKey(Entries(queue), key)
    {
      KeyInIndex(queue, byKey, key);
    }

    /** Replaces the value of the key, if there is one, by a new value at the back. */
    method Replace(key: K, value: V, ghost ticket: nat)
      requires Indexed() && DistinctKeys(Entries(queue))
      modifies this`queue, this`byKey, this`len
      ensures Indexed()
      ensures Entries(queue) == Remove(old(Entries(queue)), key) + [Entry(key, value, ticket)]
      ensures len == old(len) - (if HasKey(old(Entries(queue)), key) then 1 else 0) + 1
    {
      if key in byKey {
        RemoveElement(key);
        len := len - 1;
      }
      PushBack(key, value, ticket);
      len := len + 1;
    }

    /** Unlinks the element of the key. */
    method RemoveElement(key: K)
      requires Indexed() && DistinctKeys(Entries(queue)) && key in byKey
      modifies this`queue, this`byKey
      ensures Indexed() && Entries(queue) == Remove(old(Entries(queue)), key)
      ensures DistinctKeys(Entries(queue)) && key !in byKey
    {
      hide Without, DistinctKeys, HasKey, Entries;
      ghost var before := Entries(queue);
      KeyInIndex(queue, byKey, key);
      ghost var p := Position(before, key);
      assert queue[p].key == key && byKey[key] == queue[p];
      var i :| 0 <= i < |queue| && queue[i] == byKey[key];
      SamePosition(before, i, p);
      EntriesWithout(queue, i);
      IndexedWithout(queue, byKey, i);
      WithoutDistinct(before, i);
      queue := Without(queue, i);
      byKey := byKey - {key};
    }

    lemma SamePosition(entries: seq<Entry<K, V>>, i: nat, p: nat)
      requires DistinctKeys(entries) && i < |entries| && p < |entries| && entries[i].key == entries[p].key
      ensures i == p
    {
    }

    method PushBack(key: K, value: V, ghost ticket: nat)
      requires Indexed() && DistinctKeys(Entries(queue)) && key !in byKey
      modifies this`queue, this`byKey
      ensures Indexed() && Entries(queue) == old(Entries(queue)) + [Entry(key, value, ticket)]
    {
      hide IsIndexed, DistinctKeys, HasKey, Entries;
      var e := new Element(key, value, ticket);
      IndexedSnoc(queue, byKey, e);
      queue := queue + [e];
      byKey := byKey[key := e];
    }

    // ----- the timer and the main loop -----

    method Fire()
      requires Valid() && armed
      modifies this`armed, this`tick
      ensures Valid() && Abstract() == Next(old(Abstract()), QueueMachine.Fire)
    {
      Step(Abstract(), QueueMachine.Fire);
      armed, tick := false, true;
    }

    method TakeTick()
      requires Valid() && loop.Waiting? && tick
      modifies this`tick, this`loop
      ensures Valid() && Abstract() == Next(old(Abstract()), QueueMachine.TakeTick)
    {
      Step(Abstract(), QueueMachine.TakeTick);
      tick, loop := false, Ticked;
    }

    /** Nothing is executed when the queue is shutting down. */
    method CheckShutdown() returns (stop: bool)
      requires Valid() && loop.Ticked?
      modifies this`loop
      ensures Valid() && Abstract() == Next(old(Abstract()), QueueMachine.CheckShutdown)
      ensures stop <==> loop.Waiting?
    {
      Step(Abstract(), QueueMachine.CheckShutdown);
      stop := shutdown;
      loop := if shutdown then Waiting else Popping;
    }

    /** Takes the first element off the list and prepares its execution; the list is never empty here. */
    method PopFront() returns (p: Element<K, V>)
      requires Valid() && loop.Popping?
      modifies this`queue, this`byKey, this`running, this`canceled, this`loop
      ensures Valid() && Abstract() == Next(old(Abstract()), QueueMachine.PopFront)
      ensures loop.Calling? && loop.entry == p.Abstract()
    {
      hide Invariant, IsIndexed, DistinctKeys, HasKey, Entries, Next, Enabled;
      ghost var s := Abstract();
      NextCases(s);
      Step(s, QueueMachine.PopFront);
      p := RemoveFront();
      running, canceled := Some(p.key), false;
      loop := Calling(p.Abstract(), false);
      assert Abstract() == Popped(s);
    }

    method RemoveFront() returns (p: Element<K, V>)
      requires Valid() && loop.Popping?
      modifies this`queue, this`byKey
      ensures old(queue) != [] && p.Abstract() == old(Entries(queue))[0]
      ensures Indexed() && Entries(queue) == old(Entries(queue))[1..]
    {
      hide HasKey, DistinctKeys, Entries, IsIndexed;
      EntriesWithout(queue, 0);
      IndexedWithout(queue, byKey, 0);
      assert Without(queue, 0) == queue[1..] && Without(Entries(queue), 0) == Entries(queue)[1..];
      p := queue[0];
      queue := queue[1..];
      byKey := byKey - {p.key};
    }

    /** The callback has returned; a failed execution that was not canceled is retried. */
    method Finish(p: Element<K, V>, failed: bool)
      requires Valid() && loop.Calling? && loop.entry == p.Abstract()
      modifies this
      ensures Valid() && Abstract() == Next(old(Abstract()), QueueMachine.Finish(failed))
    {
      hide Invariant, IsIndexed, DistinctKeys, HasKey, Entries, Next, Enabled;
      ghost var s := Abstract();
      NextCases(s);
      Step(s, QueueMachine.Finish(failed));
      Facts(p.key);
      len := len - 1;
      running, loop := None, Waiting;
      if failed && !canceled {
        Retry(p);
        assert Abstract() == Finished(s, failed);
        return;
      }
      done := if failed then done else done + {p.ticket};
      if len > 0 {
        armed := true;
      }
      assert Abstract() == Finished(s, failed);
    }

    /** Puts the element back, if there is no new value of its key, and restarts the timer. */
    method Retry(p: Element<K, V>)
      requires Indexed() && DistinctKeys(Entries(queue))
      modifies this`queue, this`byKey, this`len, this`armed
      ensures Indexed() && armed
      ensures p.key in old(byKey) ==> queue == old(queue) && len == old(len)
      ensures p.key !in old(byKey) ==>
        Entries(queue) == old(Entries(queue)) + [p.Abstract()] && len == old(len) + 1
    {
      hide IsIndexed, DistinctKeys, HasKey, Entries;
      if p.key !in byKey {
        PushBack(p.key, p.value, p.ticket);
        len := len + 1;
      }
      armed := true;
    }

    // ----- Stop: three steps, with the end of the main loop between the last two -----

    method CloseShutdown()
      requires Valid() && !shutdown
      modifies this`shutdown
      ensures Valid() && Abstract() == Next(old(Abstract()), QueueMachine.CloseShutdown)
    {
      Step(Abstract(), QueueMachine.CloseShutdown);
      shutdown := true;
    }

    method CancelRunning()
      requires Valid() && shutdown
      modifies this`canceled
      ensures Valid() && Abstract() == Next(old(Abstract()), QueueMachine.CancelRunning)
    {
      Step(Abstract(), QueueMachine.CancelRunning);
      if running.Some? {
        canceled := true;
      }
    }

    method Quit()
      requires Valid() && loop.Waiting? && shutdown
      modifies this`loop
      ensures Valid() && Abstract() == Next(old(Abstract()), QueueMachine.Quit)
    {
      Step(Abstract(), QueueMachine.Quit);
      loop := Ended;
    }

    method StopTimer()
      requires Valid() && loop.Ended?
      modifies this`armed
      ensures Valid() && Abstract() == Next(old(Abstract()), QueueMachine.StopTimer)
    {
      Step(Abstract(), QueueMachine.StopTimer);
      armed := false;
    }
  }
}
