/** The blocking queue as a system of atomic steps.  A producer's `push` is a critical
    section followed, after the lock is released, by `notify_one`; a consumer's `pop` is a
    critical section that either takes an element or goes to sleep, repeated on waking. */
module BlockingQueue {
  import opened Wrappers

  type Thread = nat

  /** `items` is the deque, front first; `notifying` the producers between their critical
      section and their notification; `awake` and `sleeping` the consumers inside `pop`.
      `pushed` and `popped` are the history. */
  datatype State<T> = State(
    items: seq<T>, notifying: set<Thread>, awake: set<Thread>, sleeping: set<Thread>,
    pushed: seq<T>, popped: seq<T>)

  datatype Event<T> =
    | Push(producer: Thread, value: T)
    | Notify(producer: Thread, woken: Thread)
    | Enter(consumer: Thread)
    | Check(consumer: Thread)
    | Spurious(consumer: Thread)

  function Start<T>(): State<T> {
    State([], {}, {}, {}, [], [])
  }

  predicate Enabled<T>(s: State<T>, e: Event<T>) {
    match e
    case Push(p, _) => p !in s.notifying
    case Notify(p, c) => p in s.notifying && (s.sleeping != {} ==> c in s.sleeping)
    case Enter(c) => c !in s.awake && c !in s.sleeping
    case Check(c) => c in s.awake
    case Spurious(c) => c in s.sleeping
  }

  function Step<T>(s: State<T>, e: Event<T>): State<T>
    requires Enabled(s, e)
  {
    match e
    case Push(p, v) => s.(items := [v] + s.items, notifying := s.notifying + {p}, pushed := s.pushed + [v])
    case Notify(p, c) =>
      // a notification that finds nobody asleep has no effect
      if s.sleeping == {} then s.(notifying := s.notifying - {p})
      else s.(notifying := s.notifying - {p}, awake := s.awake + {c}, sleeping := s.sleeping - {c})
    case Enter(c) => s.(awake := s.awake + {c})
    case Check(c) =>
      if s.items == [] then s.(awake := s.awake - {c}, sleeping := s.sleeping + {c})
      else
        var n := |s.items| - 1;
        s.(items := s.items[..n], awake := s.awake - {c}, popped := s.popped + [s.items[n]])
    case Spurious(c) => s.(awake := s.awake + {c}, sleeping := s.sleeping - {c})
  }

  predicate Legal<T>(s: State<T>, run: seq<Event<T>>)
    decreases run
  {
    run == [] || (Enabled(s, run[0]) && Legal(Step(s, run[0]), run[1..]))
  }

  function Run<T>(s: State<T>, run: seq<Event<T>>): State<T>
    requires Legal(s, run)
    decreases run
  {
    if run == [] then s else Run(Step(s, run[0]), run[1..])
  }

  // ----- the object

  class Queue<T> {
    var mQueue: seq<T>
    var sleeping: set<Thread>
    var awake: set<Thread>
    var notifying: set<Thread>
    ghost var pushed: seq<T>
    ghost var popped: seq<T>

    constructor ()
      ensures View() == Start()
    {
      mQueue := [];
      sleeping, awake, notifying := {}, {}, {};
      pushed, popped := [], [];
    }

    ghost function View(): State<T>
      reads this
    {
      State(mQueue, notifying, awake, sleeping, pushed, popped)
    }

    // The block of `push` that holds the lock.
    method PushFront(p: Thread, value: T)
      requires Enabled(View(), Push(p, value))
      modifies this
      ensures View() == Step(old(View()), Push(p, value))
    {
      mQueue := [value] + mQueue;
      notifying := notifying + {p};
      pushed := pushed + [value];
    }

    // `notify_one`, after the lock is released; `c` is the thread the system chooses.
    method NotifyOne(p: Thread, c: Thread)
      requires Enabled(View(), Notify(p, c))
      modifies this
      ensures View() == Step(old(View()), Notify(p, c))
    {
      if sleeping != {} {
        sleeping := sleeping - {c};
        awake := awake + {c};
      }
      notifying := notifying - {p};
    }

    // One evaluation of the predicate of `wait` under the lock, and the removal if it holds.
    method TryPopBack(c: Thread) returns (rc: Option<T>)
      requires Enabled(View(), Check(c))
      modifies this
      ensures View() == Step(old(View()), Check(c))
      ensures rc == if old(mQueue) == [] then None else Some(old(mQueue)[|old(mQueue)| - 1])
    {
      awake := awake - {c};
      if mQueue != [] {
        rc := Some(mQueue[|mQueue| - 1]);
        mQueue := mQueue[..|mQueue| - 1];
        popped := popped + [rc.value];
      } else {
        rc := None;
        sleeping := sleeping + {c};
      }
    }
  }

  // ----- invariants of every run

  function Reversed<T>(s: seq<T>): seq<T> {
    if s == [] then [] else Reversed(s[1..]) + [s[0]]
  }

  ghost predicate Fifo<T>(s: State<T>) {
    s.popped + Reversed(s.items) == s.pushed
  }

  ghost predicate NoLostWakeup<T>(s: State<T>) {
    s.sleeping != {} ==> |s.items| <= |s.notifying| + |s.awake|
  }

  ghost predicate Inv<T>(s: State<T>) {
    s.awake !! s.sleeping && Fifo(s) && NoLostWakeup(s)
  }

  lemma {:induction false} ReversedLast<T>(s: seq<T>)
    requires s != []
    ensures Reversed(s) == [s[|s| - 1]] + Reversed(s[..|s| - 1])
  {
    if |s| > 1 {
      ReversedLast(s[1..]);
      assert s[1..][..|s| - 2] == s[..|s| - 1][1..];
    } else {
      assert s[1..] == s[..0] == [];
    }
  }

  lemma StepKeepsFifo<T>(s: State<T>, e: Event<T>)
    requires Fifo(s) && Enabled(s, e)
    ensures Fifo(Step(s, e))
  {
    if e.Push? {
      assert ([e.value] + s.items)[1..] == s.items;
    } else if e.Check? && s.items != [] {
      ReversedLast(s.items);
    }
  }

  lemma OneThread(a: set<Thread>, t: Thread)
    ensures t !in a ==> |a + {t}| == |a| + 1
    ensures t in a ==> |a - {t}| == |a| - 1
  {}

  lemma StepKeepsWakeups<T>(s: State<T>, e: Event<T>)
    requires s.awake !! s.sleeping && NoLostWakeup(s) && Enabled(s, e)
    ensures Step(s, e).awake !! Step(s, e).sleeping && NoLostWakeup(Step(s, e))
  {
    match e
    case Push(p, v) => OneThread(s.notifying, p);
    case Notify(p, c) =>
      OneThread(s.notifying, p);
      OneThread(s.awake, c);
    case Enter(c) => OneThread(s.awake, c);
    case Check(c) => OneThread(s.awake, c);
    case Spurious(c) => OneThread(s.awake, c);
  }

  lemma StepKeepsInv<T>(s: State<T>, e: Event<T>)
    requires Inv(s) && Enabled(s, e)
    ensures Inv(Step(s, e))
  {
    hide Step, Fifo, NoLostWakeup;
    StepKeepsFifo(s, e);
    StepKeepsWakeups(s, e);
  }

  /** Every interleaving, spurious wakeups included, keeps the order of elements and never
      loses a wakeup. */
  lemma {:induction false} RunKeepsInv<T>(s: State<T>, run: seq<Event<T>>)
    requires Inv(s) && Legal(s, run)
    ensures Inv(Run(s, run))
    decreases run
  {
    if run != [] {
      StepKeepsInv(s, run[0]);
      RunKeepsInv(Step(s, run[0]), run[1..]);
    }
  }

  /** From the empty queue: what has been popped, then what is queued, is what was pushed,
      in push order; and a consumer can sleep only while every queued element is matched by
      an outstanding notification or a consumer about to look. */
  lemma QueueIsCorrect<T>(run: seq<Event<T>>)
    requires Legal(Start(), run)
    ensures var s := Run(Start(), run);
      && s.popped + Reversed(s.items) == s.pushed
      && (s.sleeping != {} ==> |s.items| <= |s.notifying| + |s.awake|)
  {
    RunKeepsInv(Start<T>(), run);
  }

  // ----- progress

  /** No thread can take a step of its own: only a new call or a spurious wakeup is left. */
  ghost predicate Quiescent<T>(s: State<T>) {
    s.notifying == {} && s.awake == {}
  }

  predicate Internal<T>(e: Event<T>) {
    e.Notify? || e.Check?
  }

  function Work<T>(s: State<T>): nat {
    2 * |s.notifying| + |s.awake|
  }

  lemma InternalStepWorks<T>(s: State<T>, e: Event<T>)
    requires s.awake !! s.sleeping && Enabled(s, e) && Internal(e)
    ensures Work(Step(s, e)) < Work(s)
  {
    match e
    case Notify(p, c) =>
      OneThread(s.notifying, p);
      OneThread(s.awake, c);
    case Check(c) => OneThread(s.awake, c);
  }

  /** However the threads already inside are scheduled, they come to rest after at most
      `Work` steps; once at rest, no consumer sleeps next to a queued element. */
  lemma {:induction false} ThreadsComeToRest<T>(s: State<T>, run: seq<Event<T>>)
    requires Inv(s) && Legal(s, run) && forall i :: 0 <= i < |run| ==> Internal(run[i])
    ensures |run| + Work(Run(s, run)) <= Work(s)
    ensures Quiescent(Run(s, run)) <==> forall e: Event<T> | Internal(e) :: !Enabled(Run(s, run), e)
    ensures Quiescent(Run(s, run)) ==> Run(s, run).sleeping == {} || Run(s, run).items == []
    decreases run
  {
    if run == [] {
      StuckIsQuiescent(s);
    } else {
      InternalStepWorks(s, run[0]);
      StepKeepsInv(s, run[0]);
      ThreadsComeToRest(Step(s, run[0]), run[1..]);
    }
  }

  lemma StuckIsQuiescent<T>(s: State<T>)
    ensures Quiescent(s) <==> forall e: Event<T> | Internal(e) :: !Enabled(s, e)
  {
    if c :| c in s.awake {
      assert Internal<T>(Check(c)) && Enabled<T>(s, Check(c));
    } else if p :| p in s.notifying {
      if d :| d in s.sleeping {
        assert Internal<T>(Notify(p, d)) && Enabled<T>(s, Notify(p, d));
      } else {
        assert Internal<T>(Notify(p, 0)) && Enabled<T>(s, Notify(p, 0));
      }
    }
  }

  // ----- nothing appears or disappears

  /** The values a run pushes, in its order. */
  function Values<T>(run: seq<Event<T>>): seq<T> {
    if run == [] then [] else (if run[0].Push? then [run[0].value] else []) + Values(run[1..])
  }

  function Entries<T>(run: seq<Event<T>>): nat {
    if run == [] then 0 else (if run[0].Enter? then 1 else 0) + Entries(run[1..])
  }

  function Notifications<T>(run: seq<Event<T>>): nat {
    if run == [] then 0 else (if run[0].Notify? then 1 else 0) + Notifications(run[1..])
  }

  lemma StepConserves<T>(s: State<T>, e: Event<T>)
    requires s.awake !! s.sleeping && Enabled(s, e)
    ensures var t := Step(s, e);
      && t.awake !! t.sleeping
      && t.pushed == s.pushed + (if e.Push? then [e.value] else [])
      && |t.awake| + |t.sleeping| + |t.popped|
        == |s.awake| + |s.sleeping| + |s.popped| + (if e.Enter? then 1 else 0)
      && |t.notifying| + (if e.Notify? then 1 else 0) == |s.notifying| + (if e.Push? then 1 else 0)
  {
    match e
    case Push(p, v) => OneThread(s.notifying, p);
    case Notify(p, c) =>
      OneThread(s.notifying, p);
      if s.sleeping != {} {
        OneThread(s.awake, c);
        OneThread(s.sleeping, c);
      }
    case Enter(c) => OneThread(s.awake, c);
    case Check(c) =>
      OneThread(s.awake, c);
      OneThread(s.sleeping, c);
    case Spurious(c) =>
      OneThread(s.awake, c);
      OneThread(s.sleeping, c);
  }

  lemma {:induction false} RunConserves<T>(s: State<T>, run: seq<Event<T>>)
    requires s.awake !! s.sleeping && Legal(s, run)
    ensures var t := Run(s, run);
      && t.pushed == s.pushed + Values(run)
      && |t.awake| + |t.sleeping| + |t.popped| == |s.awake| + |s.sleeping| + |s.popped| + Entries(run)
      && |t.notifying| + Notifications(run) == |s.notifying| + |Values(run)|
    decreases run
  {
    hide Step, Enabled;
    if run != [] {
      StepConserves(s, run[0]);
      RunConserves(Step(s, run[0]), run[1..]);
    }
  }

  /** In every run every consumer that has entered is awake, asleep or gone with one element,
      the values pushed are those of the calls, and each of them is followed by its notification
      or has it outstanding. */
  lemma NobodyIsLost<T>(run: seq<Event<T>>)
    requires Legal(Start(), run)
    ensures var t := Run(Start(), run);
      && t.pushed == Values(run)
      && |t.awake| + |t.sleeping| + |t.popped| == Entries(run)
      && |t.notifying| + Notifications(run) == |Values(run)|
  {
    RunConserves(Start<T>(), run);
    assert [] + Values(run) == Values(run);
  }
}
