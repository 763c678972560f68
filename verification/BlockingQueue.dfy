/**
 The blocking queue of queue.c as a machine whose steps are its mutex-protected sections.
 Threads may sleep on either condition variable, be woken by a signal, by a broadcast or
 for no reason, and run again in any order.
 */
module BlockingQueue {
  import opened Common

  type Thread = nat

  const UNBOUNDED: nat := 0

  /**
   `asleep*` wait on a condition variable; `woken*` have been taken off it but have not
   re-entered the section yet. `entered` and `left` record the history of the items.
   */
  datatype State<T> = State(
    items: seq<T>,
    maxSize: nat,
    shutdown: bool,
    asleepEmpty: set<Thread>,
    wokenEmpty: set<Thread>,
    asleepFull: set<Thread>,
    wokenFull: set<Thread>,
    entered: seq<T>,
    left: seq<T>,
    calls: Calls<T>)

  /**
   The calls: the items of the enqueues begun and what the waiting ones among them carry, the
   number of dequeues begun and what those that returned gave, NULL being None.
   */
  datatype Calls<T> = Calls(begun: seq<T>, pending: map<Thread, T>, asked: nat, results: seq<Option<T>>)

  predicate Full<T>(s: State<T>) {
    s.maxSize != UNBOUNDED && |s.items| >= s.maxSize
  }

  predicate Asleep<T>(s: State<T>, t: Thread) {
    t in s.asleepEmpty || t in s.asleepFull
  }

  /** Neither waiting nor due to resume a wait: free to start any call. */
  predicate Idle<T>(s: State<T>, t: Thread) {
    !Asleep(s, t) && t !in s.wokenEmpty && t !in s.wokenFull
  }

  ghost predicate Init<T>(s: State<T>) {
    && s.items == s.entered == s.left == [] && s.calls == Calls([], map[], 0, [])
    && s.asleepEmpty == s.wokenEmpty == s.asleepFull == s.wokenFull == {}
  }

  /** pthread_cond_signal(&not_empty): takes one sleeper off the condition, if there is one. */
  ghost predicate SignalNotEmpty<T>(s: State<T>, s': State<T>) {
    if s.asleepEmpty == {} then s' == s
    else exists w :: w in s.asleepEmpty
                     && s' == s.(asleepEmpty := s.asleepEmpty - {w}, wokenEmpty := s.wokenEmpty + {w})
  }

  ghost predicate SignalNotFull<T>(s: State<T>, s': State<T>) {
    if s.asleepFull == {} then s' == s
    else exists w :: w in s.asleepFull
                     && s' == s.(asleepFull := s.asleepFull - {w}, wokenFull := s.wokenFull + {w})
  }

  /** queue_enqueue begins with an item in hand, or goes on with it after a wait. */
  ghost function Enqueuing<T>(s: State<T>, t: Thread, x: T): State<T> {
    var c := s.calls;
    s.(wokenFull := s.wokenFull - {t},
       calls := if Idle(s, t) then c.(begun := c.begun + [x]) else c.(pending := c.pending - {t}))
  }

  /** The section of queue_enqueue, entered for the first time or again after a wait. */
  ghost predicate Enqueue<T>(s: State<T>, s': State<T>, t: Thread, x: T) {
    && (Idle(s, t) || (t in s.wokenFull && t in s.calls.pending && s.calls.pending[t] == x))
    && var r := Enqueuing(s, t, x);
       if Full(s) then
         s' == r.(asleepFull := r.asleepFull + {t}, calls := r.calls.(pending := r.calls.pending[t := x]))
       else SignalNotEmpty(r.(items := r.items + [x], entered := r.entered + [x]), s')
  }

  ghost function Dequeuing<T>(s: State<T>, t: Thread): State<T> {
    s.(wokenEmpty := s.wokenEmpty - {t},
       calls := if Idle(s, t) then s.calls.(asked := s.calls.asked + 1) else s.calls)
  }

  ghost function Returned<T>(s: State<T>, r: Option<T>): State<T> {
    s.(calls := s.calls.(results := s.calls.results + [r]))
  }

  /** The section of queue_dequeue; on an empty queue it sleeps, or returns NULL at shutdown. */
  ghost predicate Dequeue<T>(s: State<T>, s': State<T>, t: Thread) {
    && (Idle(s, t) || t in s.wokenEmpty)
    && var r := Dequeuing(s, t);
       if |s.items| == 0 then s' == if s.shutdown then Returned(r, None) else r.(asleepEmpty := r.asleepEmpty + {t})
       else
         var x := s.items[0];
         SignalNotFull(Returned(r, Some(x)).(items := s.items[1..], left := s.left + [x]), s')
  }

  /** A wait may return although nobody signalled. */
  ghost predicate Spurious<T>(s: State<T>, s': State<T>, t: Thread) {
    || (t in s.asleepEmpty
        && s' == s.(asleepEmpty := s.asleepEmpty - {t}, wokenEmpty := s.wokenEmpty + {t}))
    || (t in s.asleepFull
        && s' == s.(asleepFull := s.asleepFull - {t}, wokenFull := s.wokenFull + {t}))
  }

  /** The signal handler stores SHUTDOWN; it does not touch the queue. */
  ghost predicate RaiseFlag<T>(s: State<T>, s': State<T>) {
    s' == s.(shutdown := true)
  }

  /** pthread_cond_broadcast(&not_empty) by thread_pool_shutdown. */
  ghost predicate Broadcast<T>(s: State<T>, s': State<T>) {
    s' == s.(asleepEmpty := {}, wokenEmpty := s.wokenEmpty + s.asleepEmpty)
  }

  datatype Step<T> =
    | EnqueueStep(t: Thread, x: T)
    | DequeueStep(t: Thread)
    | SpuriousStep(t: Thread)
    | FlagStep
    | BroadcastStep

  ghost predicate NextStep<T>(s: State<T>, s': State<T>, step: Step<T>) {
    match step
    case EnqueueStep(t, x) => Enqueue(s, s', t, x)
    case DequeueStep(t) => Dequeue(s, s', t)
    case SpuriousStep(t) => Spurious(s, s', t)
    case FlagStep => RaiseFlag(s, s')
    case BroadcastStep => Broadcast(s, s')
  }

  ghost predicate Next<T(!new)>(s: State<T>, s': State<T>) {
    exists step :: NextStep(s, s', step)
  }

  // ----- invariants -----

  /** No thread is counted in two roles at once. */
  ghost predicate Roles<T>(s: State<T>) {
    forall t: Thread ::
      && (t in s.asleepEmpty ==> t !in s.wokenEmpty && t !in s.asleepFull && t !in s.wokenFull)
      && (t in s.wokenEmpty ==> t !in s.asleepFull && t !in s.wokenFull)
      && (t in s.asleepFull ==> t !in s.wokenFull)
  }

  /** What left, followed by what is held, is what entered, in order. */
  ghost predicate Fifo<T>(s: State<T>) {
    s.left + s.items == s.entered
  }

  ghost predicate WithinCapacity<T>(s: State<T>) {
    s.maxSize != UNBOUNDED ==> |s.items| <= s.maxSize
  }

  /** While a consumer sleeps, every item has a woken consumer on its way to it. */
  ghost predicate NoLostItem<T>(s: State<T>) {
    s.asleepEmpty != {} ==> |s.items| <= |s.wokenEmpty|
  }

  /** While a producer sleeps, every free slot has a woken producer on its way to it. */
  ghost predicate NoLostSlot<T>(s: State<T>) {
    s.asleepFull != {} ==> s.maxSize != UNBOUNDED && s.maxSize <= |s.items| + |s.wokenFull|
  }

  /** The items that waiting producers carry. */
  ghost function Carried<T>(m: map<Thread, T>): multiset<T>
    decreases |m|
  {
    if |m| == 0 then multiset{} else multiset{m[SomeKey(m)]} + Carried(m - {SomeKey(m)})
  }

  ghost function SomeKey<T>(m: map<Thread, T>): (t: Thread)
    requires |m| > 0
    ensures t in m && |m - {t}| < |m|
  {
    var t :| t in m;
    FewerKeys(m, t);
    t
  }

  lemma FewerKeys<T>(m: map<Thread, T>, t: Thread)
    requires t in m
    ensures |m - {t}| == |m| - 1
  {
    assert (m - {t}).Keys == m.Keys - {t};
    assert |m - {t}| == |(m - {t}).Keys| && |m| == |m.Keys|;
  }

  /** Each enqueue call begun has put its item in or waits with it in hand. */
  ghost predicate EnqueuesAccounted<T>(s: State<T>) {
    && (forall t: Thread :: t in s.calls.pending <==> t in s.asleepFull || t in s.wokenFull)
    && multiset(s.calls.begun) == multiset(s.entered) + Carried(s.calls.pending)
  }

  /** The items among the results. */
  function Items<T>(results: seq<Option<T>>): seq<T> {
    if |results| == 0 then []
    else
      var last := results[|results| - 1];
      Items(results[..|results| - 1]) + if last.Some? then [last.value] else []
  }

  /** Each dequeue call begun has returned or waits; the results are what left, and NULL only at shutdown. */
  ghost predicate DequeuesAccounted<T>(s: State<T>) {
    && Items(s.calls.results) == s.left && (None in s.calls.results ==> s.shutdown)
    && s.calls.asked == |s.calls.results| + |s.asleepEmpty| + |s.wokenEmpty|
  }

  ghost predicate QueueInv<T>(s: State<T>) {
    Roles(s) && Fifo(s) && WithinCapacity(s) && NoLostItem(s) && NoLostSlot(s)
  }

  ghost predicate Inv<T>(s: State<T>) {
    QueueInv(s) && EnqueuesAccounted(s) && DequeuesAccounted(s)
  }

  lemma CarriedStep<T>(m: map<Thread, T>)
    requires |m| > 0
    ensures Carried(m) == multiset{m[SomeKey(m)]} + Carried(m - {SomeKey(m)})
  {
    hide SomeKey;
  }

  lemma {:induction false} CarriedAny<T>(m: map<Thread, T>, t: Thread)
    requires t in m
    ensures Carried(m) == multiset{m[t]} + Carried(m - {t})
    decreases |m|
  {
    hide Carried, SomeKey;
    assert |m| > 0;
    var c := SomeKey(m);
    CarriedStep(m);
    if c != t {
      FewerKeys(m, c);
      FewerKeys(m, t);
      CarriedAny(m - {c}, t);
      CarriedAny(m - {t}, c);
      assert m - {c} - {t} == m - {t} - {c};
    }
  }

  lemma CarriedMore<T>(m: map<Thread, T>, t: Thread, x: T)
    requires t !in m
    ensures Carried(m[t := x]) == multiset{x} + Carried(m)
  {
    CarriedAny(m[t := x], t);
    assert m[t := x] - {t} == m;
  }

  lemma ItemsStep<T>(results: seq<Option<T>>, r: Option<T>)
    ensures Items(results + [r]) == Items(results) + if r.Some? then [r.value] else []
  {
    assert (results + [r])[..|results|] == results;
  }

  lemma AddThread(ts: set<Thread>, t: Thread)
    ensures |ts + {t}| == |ts| + if t in ts then 0 else 1
  {
    if t in ts {
      assert ts + {t} == ts;
    }
  }

  lemma DropThread(ts: set<Thread>, t: Thread)
    ensures |ts - {t}| == |ts| - if t in ts then 1 else 0
  {
    if t !in ts {
      assert ts - {t} == ts;
    }
  }

  /** A signal pays for one item put into the queue. */
  lemma SignalPaysItem<T>(r: State<T>, s': State<T>)
    requires Roles(r) && Fifo(r) && WithinCapacity(r) && NoLostSlot(r) && SignalNotEmpty(r, s')
    requires r.asleepEmpty != {} ==> |r.items| <= |r.wokenEmpty| + 1
    ensures QueueInv(s')
  {
    if r.asleepEmpty != {} {
      var w :| w in r.asleepEmpty
               && s' == r.(asleepEmpty := r.asleepEmpty - {w}, wokenEmpty := r.wokenEmpty + {w});
      AddThread(r.wokenEmpty, w);
    }
  }

  /** A signal pays for one slot freed in the queue. */
  lemma SignalPaysSlot<T>(r: State<T>, s': State<T>)
    requires Roles(r) && Fifo(r) && WithinCapacity(r) && NoLostItem(r) && SignalNotFull(r, s')
    requires r.asleepFull != {} ==> r.maxSize != UNBOUNDED && r.maxSize <= |r.items| + |r.wokenFull| + 1
    ensures QueueInv(s')
  {
    if r.asleepFull != {} {
      var w :| w in r.asleepFull
               && s' == r.(asleepFull := r.asleepFull - {w}, wokenFull := r.wokenFull + {w});
      AddThread(r.wokenFull, w);
    }
  }

  lemma EnqueueKeepsQueue<T>(s: State<T>, s': State<T>, t: Thread, x: T)
    requires QueueInv(s) && Enqueue(s, s', t, x)
    ensures QueueInv(s')
  {
    hide SignalNotEmpty;
    var r := Enqueuing(s, t, x);
    DropThread(s.wokenFull, t);
    if Full(s) {
      assert Roles(s');
    } else {
      var r' := r.(items := r.items + [x], entered := r.entered + [x]);
      assert r'.left + r'.items == r.left + r.items + [x];
      SignalPaysItem(r', s');
    }
  }

  lemma HeadMoves<T>(left: seq<T>, items: seq<T>)
    requires |items| > 0
    ensures left + [items[0]] + items[1..] == left + items
  {
  }

  lemma DequeueKeepsQueue<T>(s: State<T>, s': State<T>, t: Thread)
    requires QueueInv(s) && Dequeue(s, s', t)
    ensures QueueInv(s')
  {
    hide SignalNotFull;
    var r := Dequeuing(s, t);
    DropThread(s.wokenEmpty, t);
    if |s.items| == 0 {
      assert Roles(s');
    } else {
      var x := r.items[0];
      var r' := Returned(r, Some(x)).(items := r.items[1..], left := r.left + [x]);
      HeadMoves(r.left, r.items);
      SignalPaysSlot(r', s');
    }
  }

  /** What a signal does: at most one thread changes from asleep to woken. */
  lemma SignalMoves<T>(r: State<T>, s': State<T>)
    requires SignalNotEmpty(r, s') || SignalNotFull(r, s')
    requires Roles(r)
    ensures s' == r.(asleepEmpty := s'.asleepEmpty, wokenEmpty := s'.wokenEmpty,
                     asleepFull := s'.asleepFull, wokenFull := s'.wokenFull)
    ensures forall t: Thread ::
      t in r.asleepFull || t in r.wokenFull <==> t in s'.asleepFull || t in s'.wokenFull
    ensures forall t: Thread ::
      t in r.asleepEmpty || t in r.wokenEmpty <==> t in s'.asleepEmpty || t in s'.wokenEmpty
    ensures |s'.asleepEmpty| + |s'.wokenEmpty| == |r.asleepEmpty| + |r.wokenEmpty|
  {
    if SignalNotEmpty(r, s') && r.asleepEmpty != {} {
      var w :| w in r.asleepEmpty
               && s' == r.(asleepEmpty := r.asleepEmpty - {w}, wokenEmpty := r.wokenEmpty + {w});
      AddThread(r.wokenEmpty, w);
      DropThread(r.asleepEmpty, w);
    }
  }

  /** Counting the call's own item: what is begun is entered, carried by others, or the item in hand. */
  lemma ItemInHand<T>(s: State<T>, t: Thread, x: T)
    requires EnqueuesAccounted(s)
    requires Idle(s, t) || (t in s.wokenFull && t in s.calls.pending && s.calls.pending[t] == x)
    ensures var r := Enqueuing(s, t, x);
      && multiset(r.calls.begun) == multiset(r.entered) + Carried(r.calls.pending) + multiset{x}
      && t !in r.calls.pending
  {
    hide Carried;
    if !Idle(s, t) {
      CarriedAny(s.calls.pending, t);
    }
  }

  lemma EnqueueIsAccounted<T>(s: State<T>, s': State<T>, t: Thread, x: T)
    requires Roles(s) && EnqueuesAccounted(s) && DequeuesAccounted(s) && Enqueue(s, s', t, x)
    ensures EnqueuesAccounted(s') && DequeuesAccounted(s')
  {
    hide SignalNotEmpty, SignalNotFull, Carried, Items;
    var r := Enqueuing(s, t, x);
    ItemInHand(s, t, x);
    if Full(s) {
      SleepIsAccounted(s, s', t, x);
    } else {
      var r' := r.(items := r.items + [x], entered := r.entered + [x]);
      assert multiset(r'.entered) == multiset(r.entered) + multiset{x};
      hide Full;
      SignalMoves(r', s');
    }
  }

  lemma SleepIsAccounted<T>(s: State<T>, s': State<T>, t: Thread, x: T)
    requires Roles(s) && EnqueuesAccounted(s) && DequeuesAccounted(s) && Enqueue(s, s', t, x) && Full(s)
    ensures EnqueuesAccounted(s') && DequeuesAccounted(s')
  {
    hide SignalNotEmpty, Carried, Items;
    var r := Enqueuing(s, t, x);
    ItemInHand(s, t, x);
    CarriedMore(r.calls.pending, t, x);
  }

  lemma DequeueIsAccounted<T>(s: State<T>, s': State<T>, t: Thread)
    requires Roles(s) && EnqueuesAccounted(s) && DequeuesAccounted(s) && Dequeue(s, s', t)
    ensures EnqueuesAccounted(s') && DequeuesAccounted(s')
  {
    hide SignalNotEmpty, SignalNotFull, Carried, Items;
    var r := Dequeuing(s, t);
    DropThread(s.wokenEmpty, t);
    AddThread(r.asleepEmpty, t);
    if |s.items| == 0 {
      ItemsStep(r.calls.results, None);
    } else {
      var x := r.items[0];
      var r' := Returned(r, Some(x)).(items := r.items[1..], left := r.left + [x]);
      ItemsStep(r.calls.results, Some(x));
      SignalMoves(r', s');
    }
  }

  lemma EnqueueKeepsInv<T>(s: State<T>, s': State<T>, t: Thread, x: T)
    requires Inv(s) && Enqueue(s, s', t, x)
    ensures Inv(s')
  {
    hide Enqueue, EnqueuesAccounted, DequeuesAccounted;
    EnqueueKeepsQueue(s, s', t, x);
    EnqueueIsAccounted(s, s', t, x);
  }

  lemma DequeueKeepsInv<T>(s: State<T>, s': State<T>, t: Thread)
    requires Inv(s) && Dequeue(s, s', t)
    ensures Inv(s')
  {
    hide Dequeue, EnqueuesAccounted, DequeuesAccounted;
    DequeueKeepsQueue(s, s', t);
    DequeueIsAccounted(s, s', t);
  }

  lemma WakeKeepsInv<T>(s: State<T>, s': State<T>, t: Thread)
    requires Inv(s) && Spurious(s, s', t)
    ensures Inv(s')
  {
    hide EnqueuesAccounted, DequeuesAccounted;
    WakeIsAccounted(s, s', t);
    if t in s.asleepEmpty {
      AddThread(s.wokenEmpty, t);
    } else {
      AddThread(s.wokenFull, t);
    }
  }

  lemma WakeIsAccounted<T>(s: State<T>, s': State<T>, t: Thread)
    requires Roles(s) && EnqueuesAccounted(s) && DequeuesAccounted(s) && Spurious(s, s', t)
    ensures EnqueuesAccounted(s') && DequeuesAccounted(s')
  {
    hide Carried, Items;
    AddThread(s.wokenEmpty, t);
    DropThread(s.asleepEmpty, t);
  }

  lemma FlagAndBroadcastKeepInv<T>(s: State<T>, s': State<T>)
    requires Inv(s) && (RaiseFlag(s, s') || Broadcast(s, s'))
    ensures Inv(s')
  {
    hide Carried, Items;
    if Broadcast(s, s') {
      assert s.wokenEmpty !! s.asleepEmpty;
      assert |s.wokenEmpty + s.asleepEmpty| == |s.wokenEmpty| + |s.asleepEmpty|;
    }
  }

  lemma NextKeepsInv<T(!new)>(s: State<T>, s': State<T>)
    requires Inv(s) && Next(s, s')
    ensures Inv(s')
  {
    var step :| NextStep(s, s', step);
    match step
    case EnqueueStep(t, x) => EnqueueKeepsInv(s, s', t, x);
    case DequeueStep(t) => DequeueKeepsInv(s, s', t);
    case SpuriousStep(t) => WakeKeepsInv(s, s', t);
    case FlagStep => FlagAndBroadcastKeepInv(s, s');
    case BroadcastStep => FlagAndBroadcastKeepInv(s, s');
  }

  // ----- every run -----

  ghost predicate Run<T(!new)>(run: seq<State<T>>) {
    && |run| > 0 && Init(run[0])
    && forall i :: 0 <= i < |run| - 1 ==> Next(run[i], run[i + 1])
  }

  lemma {:induction false} RunKeepsInv<T(!new)>(run: seq<State<T>>, i: nat)
    requires Run(run) && i < |run|
    ensures Inv(run[i])
    decreases i
  {
    if i > 0 {
      RunKeepsInv(run, i - 1);
      assert Next(run[i - 1], run[i - 1 + 1]);
      NextKeepsInv(run[i - 1], run[i]);
    }
  }

  /** In every run items leave in the order they entered and the bound is respected. */
  lemma RunIsFifo<T(!new)>(run: seq<State<T>>, i: nat)
    requires Run(run) && i < |run|
    ensures run[i].left + run[i].items == run[i].entered
    ensures run[i].maxSize != UNBOUNDED ==> |run[i].items| <= run[i].maxSize
  {
    RunKeepsInv(run, i);
  }

  /**
   No wakeup is ever lost: an item never waits while consumers sleep and none is awake for
   it, a free slot never waits while producers sleep and none is awake for it, and a bounded
   queue never has both sides asleep with nobody woken.
   */
  lemma NoLostWakeup<T(!new)>(run: seq<State<T>>, i: nat)
    requires Run(run) && i < |run|
    ensures var s := run[i];
      && !(s.items != [] && s.asleepEmpty != {} && s.wokenEmpty == {})
      && !(s.asleepFull != {} && !Full(s) && s.wokenFull == {})
      && !(s.asleepEmpty != {} && s.asleepFull != {} && s.wokenEmpty == {} && s.wokenFull == {})
  {
    RunKeepsInv(run, i);
  }

  /**
   In every run each enqueue call begun has put its own item in or waits for room with it, so
   none is lost or doubled; each dequeue call begun has returned an item, in the order of
   leaving, or NULL, or waits.
   */
  lemma CallsAccounted<T(!new)>(run: seq<State<T>>, i: nat)
    requires Run(run) && i < |run|
    ensures var s := run[i];
      && multiset(s.calls.begun) == multiset(s.entered) + Carried(s.calls.pending)
      && (forall t: Thread :: t in s.calls.pending <==> t in s.asleepFull || t in s.wokenFull)
      && Items(s.calls.results) == s.left && (None in s.calls.results ==> s.shutdown)
      && s.calls.asked == |s.calls.results| + |s.asleepEmpty| + |s.wokenEmpty|
  {
    RunKeepsInv(run, i);
  }

  /** A woken producer that finds room can go on with the item it carries. */
  lemma WokenProducerCanEnter<T(!new)>(s: State<T>, t: Thread)
    requires Inv(s) && t in s.wokenFull && !Full(s)
    ensures t in s.calls.pending && exists s' :: NextStep(s, s', EnqueueStep(t, s.calls.pending[t]))
  {
    hide Carried, Items, Fifo, WithinCapacity, NoLostItem, NoLostSlot;
    var x := s.calls.pending[t];
    var r := Enqueuing(s, t, x);
    var s' := SomeSignal(r.(items := r.items + [x], entered := r.entered + [x]));
    assert NextStep(s, s', EnqueueStep(t, x));
  }

  lemma SomeSignal<T>(r: State<T>) returns (s': State<T>)
    ensures SignalNotEmpty(r, s')
  {
    s' := r;
    if r.asleepEmpty != {} {
      var w :| w in r.asleepEmpty;
      s' := r.(asleepEmpty := r.asleepEmpty - {w}, wokenEmpty := r.wokenEmpty + {w});
    }
  }

  /** What enters when it goes on is its own item, and then the call has returned. */
  lemma WokenProducerEnters<T>(s: State<T>, s': State<T>, t: Thread, x: T)
    requires Roles(s) && t in s.wokenFull && !Full(s) && Enqueue(s, s', t, x)
    ensures t in s.calls.pending && x == s.calls.pending[t]
    ensures s'.entered == s.entered + [x] && s'.items == s.items + [x]
    ensures t !in s'.calls.pending && Idle(s', t)
  {
    hide SignalNotEmpty, SignalNotFull;
    var r := Enqueuing(s, t, x);
    SignalMoves(r.(items := r.items + [x], entered := r.entered + [x]), s');
  }

  /** A call on a full queue does not return: the thread sleeps with its item. */
  lemma FullQueueBlocks<T>(s: State<T>, s': State<T>, t: Thread, x: T)
    requires Enqueue(s, s', t, x) && Full(s)
    ensures t in s'.asleepFull && t in s'.calls.pending && s'.calls.pending[t] == x
    ensures s'.entered == s.entered && s'.items == s.items && !Idle(s', t)
  {
  }

  /** How a dequeue section ends: with the oldest item, with NULL on an empty queue at shutdown, or asleep. */
  lemma DequeueEnds<T>(s: State<T>, s': State<T>, t: Thread)
    requires Inv(s) && Dequeue(s, s', t)
    ensures s.items != [] ==>
      && s'.calls.results == s.calls.results + [Some(s.items[0])] && s'.left == s.left + [s.items[0]]
      && s'.items == s.items[1..] && Idle(s', t)
    ensures s.items == [] && s.shutdown ==>
      s'.calls.results == s.calls.results + [None] && s'.left == s.left && Idle(s', t)
    ensures s.items == [] && !s.shutdown ==>
      s'.calls.results == s.calls.results && s'.left == s.left && t in s'.asleepEmpty
  {
    hide Carried, Items;
  }
}
