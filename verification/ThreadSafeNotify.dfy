/**
 * `ObserverListThreadSafe` as a protocol: a map guarded by a lock, one first-in-first-out task queue for each
 * sequence, and the notifications each sequence is in the middle of dispatching.
 */
module ThreadSafeNotify {
  import opened Bytes
  import ObserverSlots

  type Observer = ObserverSlots.Observer
  type Policy = ObserverSlots.Policy

  type Sequence = int

  /** A posted call of `NotifyWrapper`; notifications are numbered in the order `Notify` was called. */
  datatype Task = Task(observer: Observer, n: nat)

  /** `NotifyWrapper` between its two halves: past the check under the lock, or inside the callback. */
  datatype Frame = Checked(task: Task) | Running(task: Task)

  datatype Delivery = Delivery(observer: Observer, n: nat, on: Sequence)

  datatype State = State(
    observers: map<Observer, Sequence>,
    queues: map<Sequence, seq<Task>>,
    frames: map<Sequence, seq<Frame>>,
    notified: nat,
    deliveries: seq<Delivery>,
    policy: Policy)

  function Queue(queues: map<Sequence, seq<Task>>, q: Sequence): seq<Task> {
    if q in queues then queues[q] else []
  }

  function Frames(s: State, q: Sequence): seq<Frame> {
    if q in s.frames then s.frames[q] else []
  }

  /** The innermost notification `q` is dispatching: the thread-local current notification. */
  function Top(s: State, q: Sequence): Option<Frame> {
    var f := Frames(s, q);
    if f == [] then None else Some(f[|f| - 1])
  }

  /** `q` is not between the check and the callback of `NotifyWrapper`, so it may start something. */
  predicate Free(s: State, q: Sequence) {
    Top(s, q).Some? ==> Top(s, q).value.Running?
  }

  // ----- the steps: each is one region under the lock, or one action of a sequence -----

  datatype Action =
    | AddObserver(o: Observer, q: Sequence)
    | RemoveObserver(o: Observer, from: Sequence)
    | Notify(from: Sequence, order: seq<Observer>)
    | Check(q: Sequence)
    | Begin(q: Sequence)
    | Finish(q: Sequence)

  function Post(queues: map<Sequence, seq<Task>>, q: Sequence, t: Task): map<Sequence, seq<Task>> {
    queues[q := Queue(queues, q) + [t]]
  }

  /** The loop of `Notify` over the map, in the order the map happens to have. */
  function PostAll(queues: map<Sequence, seq<Task>>, observers: map<Observer, Sequence>, order: seq<Observer>, n: nat)
      : map<Sequence, seq<Task>>
    requires forall i :: 0 <= i < |order| ==> order[i] in observers
  {
    if order == [] then queues
    else
      var k := |order| - 1;
      Post(PostAll(queues, observers, order[..k], n), observers[order[k]], Task(order[k], n))
  }

  ghost predicate IsOrderOf(order: seq<Observer>, observers: map<Observer, Sequence>) {
    && (forall i :: 0 <= i < |order| ==> order[i] in observers)
    && (forall o :: o in observers ==> o in order)
    && (forall i, j :: 0 <= i < j < |order| ==> order[i] != order[j])
  }

  /** An observer is not added twice, and a sequence does one thing at a time. */
  ghost predicate Enabled(s: State, a: Action) {
    match a
    case AddObserver(o, q) => o !in s.observers && Free(s, q)
    case RemoveObserver(_, from) => Free(s, from)
    case Notify(from, order) => Free(s, from) && IsOrderOf(order, s.observers)
    case Check(q) => Free(s, q) && Queue(s.queues, q) != []
    case Begin(q) => Top(s, q).Some? && Top(s, q).value.Checked?
    case Finish(q) => Top(s, q).Some? && Top(s, q).value.Running?
  }

  function Push(s: State, q: Sequence, f: Frame): State {
    s.(frames := s.frames[q := Frames(s, q) + [f]])
  }

  function Pop(s: State, q: Sequence): State
    requires Frames(s, q) != []
  {
    s.(frames := s.frames[q := Frames(s, q)[..|Frames(s, q)| - 1]])
  }

  /** The notification a new observer must still get: the one being dispatched where it registers, under ALL. */
  function Catchup(s: State, q: Sequence): seq<nat> {
    if s.policy.All? && Top(s, q).Some? then [Top(s, q).value.task.n] else []
  }

  ghost function Step(s: State, a: Action): State
    requires Enabled(s, a)
  {
    match a
    case AddObserver(o, q) =>
      var t := s.(observers := s.observers[o := q]);
      if Catchup(s, q) != [] then t.(queues := Post(s.queues, q, Task(o, Catchup(s, q)[0]))) else t
    case RemoveObserver(o, _) => s.(observers := s.observers - {o})
    case Notify(_, order) =>
      s.(queues := PostAll(s.queues, s.observers, order, s.notified), notified := s.notified + 1)
    case Check(q) =>
      var task := Queue(s.queues, q)[0];
      var t := s.(queues := s.queues[q := Queue(s.queues, q)[1..]]);
      if task.observer in s.observers then Push(t, q, Checked(task)) else t
    case Begin(q) =>
      var task := Top(s, q).value.task;
      Push(Pop(s, q), q, Running(task)).(deliveries := s.deliveries + [Delivery(task.observer, task.n, q)])
    case Finish(q) => Pop(s, q)
  }

  // ----- what one observer is owed, and what it gets -----

  /** The notifications delivered to `o`, in order. */
  function Delivered(ds: seq<Delivery>, o: Observer): seq<nat> {
    if ds == [] then []
    else Delivered(ds[..|ds| - 1], o) + if ds[|ds| - 1].observer == o then [ds[|ds| - 1].n] else []
  }

  /** The notifications waiting for `o` in a queue, in order. */
  function Queued(ts: seq<Task>, o: Observer): seq<nat> {
    if ts == [] then []
    else Queued(ts[..|ts| - 1], o) + if ts[|ts| - 1].observer == o then [ts[|ts| - 1].n] else []
  }

  /** The notification that has passed the check for `o` and whose callback has not started. */
  function Pending(s: State, q: Sequence, o: Observer): seq<nat> {
    if Top(s, q).Some? && Top(s, q).value.Checked? && Top(s, q).value.task.observer == o
    then [Top(s, q).value.task.n] else []
  }

  function Range(a: nat, b: nat): seq<nat> {
    seq(if a <= b then b - a else 0, i requires 0 <= i => a + i)
  }

  /** Nothing about `o` is anywhere yet. */
  ghost predicate Unknown(s: State, o: Observer) {
    && o !in s.observers
    && (forall q: Sequence :: Queued(Queue(s.queues, q), o) == [] && Pending(s, q, o) == [])
    && (forall d :: d in s.deliveries ==> d.observer != o)
  }

  /** Only the innermost frame of a sequence can be between check and callback. */
  ghost predicate OnlyTopChecked(s: State) {
    forall q: Sequence, i :: 0 <= i < |Frames(s, q)| - 1 ==> Frames(s, q)[i].Running?
  }

  /** Everything about `o` happens on its sequence `q`. */
  ghost predicate Placed(s: State, o: Observer, q: Sequence) {
    && (o in s.observers ==> s.observers[o] == q)
    && (forall p: Sequence :: p != q ==> Queued(Queue(s.queues, p), o) == [] && Pending(s, p, o) == [])
    && (forall d :: d in s.deliveries && d.observer == o ==> d.on == q)
  }

  /**
   * `owed` lists the notifications issued to `o` so far.  While it is registered they are exactly the delivered
   * ones, then the pending one, then the queued ones; after its removal the delivered ones and a pending one
   * are the first of them.
   */
  ghost predicate Tracks(s: State, o: Observer, q: Sequence, owed: seq<nat>) {
    && OnlyTopChecked(s) && Placed(s, o, q)
    && var got := Delivered(s.deliveries, o) + Pending(s, q, o);
       if o in s.observers then got + Queued(Queue(s.queues, q), o) == owed else got <= owed
  }

  /** How an action changes what `o` is owed. */
  function Owed(s: State, o: Observer, a: Action, owed: seq<nat>): seq<nat> {
    if a.Notify? && o in s.observers then owed + [s.notified] else owed
  }

  // ----- lemmas about queues -----

  lemma QueuedSnoc(ts: seq<Task>, t: Task, o: Observer)
    ensures Queued(ts + [t], o) == if t.observer == o then Queued(ts, o) + [t.n] else Queued(ts, o)
  {
    assert (ts + [t])[..|ts|] == ts;
  }

  lemma QueuedNone(o: Observer)
    ensures Queued([], o) == []
  {
  }

  lemma {:induction false} QueuedFirst(ts: seq<Task>, o: Observer)
    requires ts != []
    ensures Queued(ts, o) == (if ts[0].observer == o then [ts[0].n] else []) + Queued(ts[1..], o)
    decreases |ts|
  {
    hide Queued;
    var init, last := ts[..|ts| - 1], ts[|ts| - 1];
    assert ts == init + [last];
    QueuedSnoc(init, last, o);
    if init == [] {
      assert Queued([], o) == [] by { QueuedNone(o); }
      assert ts[1..] == [];
    } else {
      QueuedFirst(init, o);
      QueuedSnoc(init[1..], last, o);
      assert ts[1..] == init[1..] + [last];
      var first := if ts[0].observer == o then [ts[0].n] else [];
      var rest := Queued(init[1..], o);
      assert (first + rest) + [last.n] == first + (rest + [last.n]);
    }
  }

  lemma DeliveredSnoc(ds: seq<Delivery>, d: Delivery, o: Observer)
    ensures Delivered(ds + [d], o) == if d.observer == o then Delivered(ds, o) + [d.n] else Delivered(ds, o)
  {
    assert (ds + [d])[..|ds|] == ds;
  }

  lemma {:induction false} DeliveredNone(ds: seq<Delivery>, o: Observer)
    requires forall d :: d in ds ==> d.observer != o
    ensures Delivered(ds, o) == []
  {
    if ds != [] {
      DeliveredNone(ds[..|ds| - 1], o);
    }
  }

  /** `Notify` posts exactly one task for each registered observer, to its own sequence, and none for others. */
  lemma PostPosts(queues: map<Sequence, seq<Task>>, p: Sequence, t: Task, o: Observer, q: Sequence)
    ensures Queued(Queue(Post(queues, p, t), q), o) ==
            if t.observer == o && p == q then Queued(Queue(queues, q), o) + [t.n] else Queued(Queue(queues, q), o)
  {
    hide Queued;
    QueuedSnoc(Queue(queues, p), t, o);
  }

  lemma {:induction false} PostAllPosts(queues: map<Sequence, seq<Task>>, observers: map<Observer, Sequence>,
                                       order: seq<Observer>, n: nat, o: Observer, q: Sequence)
    requires forall i :: 0 <= i < |order| ==> order[i] in observers
    requires forall i, j :: 0 <= i < j < |order| ==> order[i] != order[j]
    ensures Queued(Queue(PostAll(queues, observers, order, n), q), o) ==
            if o in order && observers[o] == q then Queued(Queue(queues, q), o) + [n] else Queued(Queue(queues, q), o)
    decreases |order|
  {
    hide Queued, Post, Queue;
    if order != [] {
      var k := |order| - 1;
      var before := PostAll(queues, observers, order[..k], n);
      PostAllPosts(queues, observers, order[..k], n, o, q);
      PostPosts(before, observers[order[k]], Task(order[k], n), o, q);
      assert order == order[..k] + [order[k]];
      assert order[k] !in order[..k];
    }
  }

  // ----- every step keeps the account -----

  lemma NotifyTracks(s: State, o: Observer, q: Sequence, owed: seq<nat>, a: Action)
    requires Tracks(s, o, q, owed) && Enabled(s, a) && a.Notify?
    ensures Tracks(Step(s, a), o, q, Owed(s, o, a, owed))
  {
    hide Queued, Delivered, PostAll;
    var t := Step(s, a);
    forall p: Sequence
      ensures Queued(Queue(t.queues, p), o) ==
              if o in s.observers && s.observers[o] == p then Queued(Queue(s.queues, p), o) + [s.notified]
              else Queued(Queue(s.queues, p), o)
      ensures Pending(t, p, o) == Pending(s, p, o)
    {
      PostAllPosts(s.queues, s.observers, a.order, s.notified, o, p);
    }
    assert forall p: Sequence :: Frames(t, p) == Frames(s, p);
    assert OnlyTopChecked(t);
    assert Placed(t, o, q);
    var got := Delivered(s.deliveries, o) + Pending(s, q, o);
    var queued := Queued(Queue(s.queues, q), o);
    assert got + (queued + [s.notified]) == (got + queued) + [s.notified];
  }

  /** The effect of `Check(p)` on everything the account of `o` looks at. */
  lemma CheckEffect(s: State, p: Sequence, o: Observer)
    requires OnlyTopChecked(s) && Enabled(s, Check(p))
    ensures var t := Step(s, Check(p));
            var task := Queue(s.queues, p)[0];
            && OnlyTopChecked(t) && t.observers == s.observers && t.deliveries == s.deliveries
            && (forall r: Sequence :: r != p ==> Queue(t.queues, r) == Queue(s.queues, r) && Pending(t, r, o) == Pending(s, r, o))
            && Pending(s, p, o) == []
            && Pending(t, p, o) == (if task.observer == o && o in s.observers then [task.n] else [])
            && Queued(Queue(s.queues, p), o) == (if task.observer == o then [task.n] else []) + Queued(Queue(t.queues, p), o)
  {
    hide Queued;
    var t := Step(s, Check(p));
    var task := Queue(s.queues, p)[0];
    QueuedFirst(Queue(s.queues, p), o);
    assert forall r: Sequence :: r != p ==> Frames(t, r) == Frames(s, r) && Queue(t.queues, r) == Queue(s.queues, r);
    assert Frames(t, p) == if task.observer in s.observers then Frames(s, p) + [Checked(task)] else Frames(s, p);
  }

  lemma CheckTracks(s: State, o: Observer, q: Sequence, owed: seq<nat>, p: Sequence)
    requires Tracks(s, o, q, owed) && Enabled(s, Check(p))
    ensures Tracks(Step(s, Check(p)), o, q, owed)
  {
    hide Queued, Delivered, Pending, Step, OnlyTopChecked;
    var t := Step(s, Check(p));
    CheckEffect(s, p, o);
    var d := Delivered(s.deliveries, o);
  }

  /** The effect of `Begin(p)` on everything the account of `o` looks at. */
  lemma BeginEffect(s: State, p: Sequence, o: Observer)
    requires OnlyTopChecked(s) && Enabled(s, Begin(p))
    ensures var t := Step(s, Begin(p));
            && OnlyTopChecked(t) && t.observers == s.observers && t.queues == s.queues
            && (forall r: Sequence :: r != p ==> Pending(t, r, o) == Pending(s, r, o))
            && Pending(t, p, o) == []
            && Delivered(t.deliveries, o) == Delivered(s.deliveries, o) + Pending(s, p, o)
            && (forall d :: d in t.deliveries && d.observer == o ==> d in s.deliveries || (d.on == p && Pending(s, p, o) != []))
  {
    hide Delivered, Queued;
    var t := Step(s, Begin(p));
    var task := Top(s, p).value.task;
    var k := |Frames(s, p)| - 1;
    assert forall r: Sequence :: r != p ==> Frames(t, r) == Frames(s, r);
    assert Frames(t, p) == Frames(s, p)[..k] + [Running(task)];
    DeliveredSnoc(s.deliveries, Delivery(task.observer, task.n, p), o);
    assert Delivered(s.deliveries, o) + [] == Delivered(s.deliveries, o);
  }

  lemma BeginTracks(s: State, o: Observer, q: Sequence, owed: seq<nat>, p: Sequence)
    requires Tracks(s, o, q, owed) && Enabled(s, Begin(p))
    ensures Tracks(Step(s, Begin(p)), o, q, owed)
  {
    hide Queued, Delivered, Pending, Step, OnlyTopChecked, Enabled;
    BeginEffect(s, p, o);
    var d := Delivered(s.deliveries, o);
    assert d + [] == d && (d + Pending(s, q, o)) + [] == d + Pending(s, q, o);
  }

  lemma FinishEffect(s: State, p: Sequence, o: Observer)
    requires OnlyTopChecked(s) && Enabled(s, Finish(p))
    ensures var t := Step(s, Finish(p));
            && OnlyTopChecked(t) && t.observers == s.observers && t.queues == s.queues && t.deliveries == s.deliveries
            && (forall r: Sequence :: Pending(t, r, o) == Pending(s, r, o))
  {
    var t := Step(s, Finish(p));
    var k := |Frames(s, p)| - 1;
    assert forall r: Sequence :: r != p ==> Frames(t, r) == Frames(s, r);
    assert Frames(t, p) == Frames(s, p)[..k];
    assert k > 0 ==> Frames(s, p)[k - 1].Running?;
  }

  lemma FinishTracks(s: State, o: Observer, q: Sequence, owed: seq<nat>, p: Sequence)
    requires Tracks(s, o, q, owed) && Enabled(s, Finish(p))
    ensures Tracks(Step(s, Finish(p)), o, q, owed)
  {
    hide Queued, Delivered, Pending, Step, OnlyTopChecked, Enabled;
    FinishEffect(s, p, o);
  }

  /** The three actions that touch no frames. */
  lemma FramesStay(s: State, a: Action, o: Observer)
    requires Enabled(s, a) && (a.AddObserver? || a.RemoveObserver? || a.Notify?)
    ensures var t := Step(s, a);
            && t.deliveries == s.deliveries && (forall r: Sequence :: Frames(t, r) == Frames(s, r) && Pending(t, r, o) == Pending(s, r, o))
            && (o !in s.observers && !(a.AddObserver? && a.o == o) ==> o !in t.observers)
            && (OnlyTopChecked(s) ==> OnlyTopChecked(t))
  {
    hide PostAll, Queued;
    var t := Step(s, a);
    assert t.frames == s.frames;
  }

  lemma StepStaysChecked(s: State, a: Action)
    requires OnlyTopChecked(s) && Enabled(s, a)
    ensures OnlyTopChecked(Step(s, a))
  {
    hide OnlyTopChecked, Step, Enabled, Queued, Delivered, Pending;
    match a
    case Check(p) => CheckEffect(s, p, 0);
    case Begin(p) => BeginEffect(s, p, 0);
    case Finish(p) => FinishEffect(s, p, 0);
    case _ => FramesStay(s, a, 0);
  }

  /** Registering `x` on `p` posts at most one task, for `x`, to `p`. */
  lemma AddEffect(s: State, x: Observer, p: Sequence, o: Observer, r: Sequence)
    requires Enabled(s, AddObserver(x, p))
    ensures var t := Step(s, AddObserver(x, p));
            && t.observers == s.observers[x := p]
            && Queued(Queue(t.queues, r), o) ==
               if x == o && r == p then Queued(Queue(s.queues, r), o) + Catchup(s, p) else Queued(Queue(s.queues, r), o)
  {
    hide Queued;
    if Catchup(s, p) != [] {
      QueuedSnoc(Queue(s.queues, p), Task(x, Catchup(s, p)[0]), o);
      assert Catchup(s, p) == [Catchup(s, p)[0]];
    } else {
      assert Queued(Queue(s.queues, r), o) + [] == Queued(Queue(s.queues, r), o);
    }
  }

  lemma AddOtherTracks(s: State, o: Observer, q: Sequence, owed: seq<nat>, x: Observer, p: Sequence)
    requires Tracks(s, o, q, owed) && Enabled(s, AddObserver(x, p)) && x != o
    ensures Tracks(Step(s, AddObserver(x, p)), o, q, owed)
  {
    hide Queued, Delivered, Pending, Step, OnlyTopChecked, Enabled;
    FramesStay(s, AddObserver(x, p), o);
    AddEffect(s, x, p, o, q);
    forall r: Sequence ensures Queued(Queue(Step(s, AddObserver(x, p)).queues, r), o) == Queued(Queue(s.queues, r), o) {
      AddEffect(s, x, p, o, r);
    }
  }

  lemma RemoveTracks(s: State, o: Observer, q: Sequence, owed: seq<nat>, x: Observer, from: Sequence)
    requires Tracks(s, o, q, owed) && Enabled(s, RemoveObserver(x, from))
    ensures Tracks(Step(s, RemoveObserver(x, from)), o, q, owed)
  {
    hide Queued, Delivered;
    var t := Step(s, RemoveObserver(x, from));
    assert forall r: Sequence :: Frames(t, r) == Frames(s, r) && Pending(t, r, o) == Pending(s, r, o);
    var got := Delivered(s.deliveries, o) + Pending(s, q, o);
    assert got <= got + Queued(Queue(s.queues, q), o);
  }

  /** Every step by anyone keeps the account of `o`, as long as it is not registered a second time. */
  lemma StepTracks(s: State, o: Observer, q: Sequence, owed: seq<nat>, a: Action)
    requires Tracks(s, o, q, owed) && Enabled(s, a) && !(a.AddObserver? && a.o == o)
    ensures Tracks(Step(s, a), o, q, Owed(s, o, a, owed))
  {
    hide Tracks;
    match a
    case AddObserver(x, p) => AddOtherTracks(s, o, q, owed, x, p);
    case RemoveObserver(x, from) => RemoveTracks(s, o, q, owed, x, from);
    case Notify(_, _) => NotifyTracks(s, o, q, owed, a);
    case Check(p) => CheckTracks(s, o, q, owed, p);
    case Begin(p) => BeginTracks(s, o, q, owed, p);
    case Finish(p) => FinishTracks(s, o, q, owed, p);
  }

  /** Registering opens the account with the notification being dispatched there, if the policy wants it. */
  lemma AddOpensAccount(s: State, o: Observer, q: Sequence)
    requires Unknown(s, o) && OnlyTopChecked(s) && Enabled(s, AddObserver(o, q))
    ensures Tracks(Step(s, AddObserver(o, q)), o, q, Catchup(s, q))
  {
    hide Queued, Delivered, Pending, Step, OnlyTopChecked, Enabled, Catchup;
    var t := Step(s, AddObserver(o, q));
    FramesStay(s, AddObserver(o, q), o);
    forall r: Sequence
      ensures Queued(Queue(t.queues, r), o) == if r == q then Catchup(s, q) else []
    {
      AddEffect(s, o, q, o, r);
      assert [] + Catchup(s, q) == Catchup(s, q);
    }
    AddEffect(s, o, q, o, q);
    DeliveredNone(s.deliveries, o);
    assert [] + [] + Catchup(s, q) == Catchup(s, q);
  }

  // ----- runs -----

  /** A run: each action is enabled where it happens. */
  ghost predicate IsRun(s: State, actions: seq<Action>)
    decreases |actions|
  {
    actions == [] || (Enabled(s, actions[0]) && IsRun(Step(s, actions[0]), actions[1..]))
  }

  ghost function After(s: State, actions: seq<Action>): State
    requires IsRun(s, actions)
    decreases |actions|
  {
    if actions == [] then s else After(Step(s, actions[0]), actions[1..])
  }

  ghost function OwedAfter(s: State, o: Observer, actions: seq<Action>, owed: seq<nat>): seq<nat>
    requires IsRun(s, actions)
    decreases |actions|
  {
    if actions == [] then owed
    else OwedAfter(Step(s, actions[0]), o, actions[1..], Owed(s, o, actions[0], owed))
  }

  ghost predicate NeverAdds(actions: seq<Action>, o: Observer) {
    forall i :: 0 <= i < |actions| ==> !(actions[i].AddObserver? && actions[i].o == o)
  }

  ghost predicate NeverRemoves(actions: seq<Action>, o: Observer) {
    forall i :: 0 <= i < |actions| ==> !(actions[i].RemoveObserver? && actions[i].o == o)
  }

  lemma {:induction false} RunTracks(s: State, o: Observer, q: Sequence, owed: seq<nat>, actions: seq<Action>)
    requires Tracks(s, o, q, owed) && IsRun(s, actions) && NeverAdds(actions, o)
    ensures Tracks(After(s, actions), o, q, OwedAfter(s, o, actions, owed))
    decreases |actions|
  {
    hide Tracks, Step, Enabled;
    if actions != [] {
      StepTracks(s, o, q, owed, actions[0]);
      RunTracks(Step(s, actions[0]), o, q, Owed(s, o, actions[0], owed), actions[1..]);
    }
  }

  /** What is owed: the catch-up notification, then every notification issued from registration to removal. */
  lemma {:induction false} OwedIsARange(s: State, o: Observer, actions: seq<Action>, first: seq<nat>, a: nat)
    requires IsRun(s, actions) && NeverAdds(actions, o) && a <= s.notified
    ensures var owed := OwedAfter(s, o, actions, first + Range(a, s.notified));
            var last := After(s, actions);
            && s.notified <= last.notified
            && (o !in s.observers ==> o !in last.observers && owed == first + Range(a, s.notified))
            && (o in last.observers ==> owed == first + Range(a, last.notified))
            && (o in s.observers && NeverRemoves(actions, o) ==> o in last.observers)
            && exists b: nat :: s.notified <= b <= last.notified && owed == first + Range(a, b)
    decreases |actions|
  {
    hide Enabled, PostAll, Range, NeverAdds, NeverRemoves;
    NeverSuffix(actions, o);
    if actions == [] {
      assert OwedAfter(s, o, actions, first + Range(a, s.notified)) == first + Range(a, s.notified);
    } else {
      var t := Step(s, actions[0]);
      RangeGrows(a, s.notified);
      assert first + (Range(a, s.notified) + [s.notified]) == (first + Range(a, s.notified)) + [s.notified];
      if o in s.observers || t.notified == s.notified {
        assert Owed(s, o, actions[0], first + Range(a, s.notified)) == first + Range(a, t.notified);
        OwedIsARange(t, o, actions[1..], first, a);
      } else {
        GoneOwesNothing(t, o, actions[1..], first + Range(a, s.notified));
      }
    }
  }

  lemma NeverSuffix(actions: seq<Action>, o: Observer)
    ensures actions != [] && NeverAdds(actions, o) ==> NeverAdds(actions[1..], o) && !(actions[0].AddObserver? && actions[0].o == o)
    ensures actions != [] && NeverRemoves(actions, o) ==> NeverRemoves(actions[1..], o) && !(actions[0].RemoveObserver? && actions[0].o == o)
  {
  }

  lemma RangeGrows(a: nat, b: nat)
    ensures a <= b ==> Range(a, b + 1) == Range(a, b) + [b]
  {
  }

  lemma {:induction false} GoneOwesNothing(s: State, o: Observer, actions: seq<Action>, owed: seq<nat>)
    requires IsRun(s, actions) && NeverAdds(actions, o) && o !in s.observers
    ensures OwedAfter(s, o, actions, owed) == owed && o !in After(s, actions).observers
    ensures s.notified <= After(s, actions).notified
    decreases |actions|
  {
    hide Enabled, PostAll;
    if actions != [] {
      GoneOwesNothing(Step(s, actions[0]), o, actions[1..], owed);
    }
  }

  /**
   * Delivery over every interleaving, for an observer registered once, on `q`.  What it has been delivered is
   * always an initial part of: the notification being dispatched where it registered (under ALL only), then
   * every notification issued from its registration on, in order and without gaps.  All of it happens on `q`.
   * If it is never removed and nothing is left in the queue or between check and callback, all was delivered.
   */
  lemma DeliveriesAreInOrder(s: State, o: Observer, q: Sequence, actions: seq<Action>)
    requires Unknown(s, o) && OnlyTopChecked(s) && Enabled(s, AddObserver(o, q))
    requires IsRun(Step(s, AddObserver(o, q)), actions) && NeverAdds(actions, o)
    ensures var t := After(Step(s, AddObserver(o, q)), actions);
            var all := Catchup(s, q) + Range(s.notified, t.notified);
            && Delivered(t.deliveries, o) <= all
            && (forall d :: d in t.deliveries && d.observer == o ==> d.on == q)
            && (NeverRemoves(actions, o) ==>
                  Delivered(t.deliveries, o) + Pending(t, q, o) + Queued(Queue(t.queues, q), o) == all)
  {
    hide Enabled, Step, Queued, Delivered, Unknown, Range, Catchup;
    var s1 := Step(s, AddObserver(o, q));
    AddOpensAccount(s, o, q);
    AddRegisters(s, o, q);
    var first := Catchup(s, q);
    assert first + Range(s.notified, s.notified) == first by { assert Range(s.notified, s.notified) == [] by { RangeEmpty(s.notified); } }
    RunTracks(s1, o, q, first, actions);
    OwedIsARange(s1, o, actions, first, s.notified);
    var t := After(s1, actions);
    var owed := OwedAfter(s1, o, actions, first);
    var b: nat :| s1.notified <= b <= t.notified && owed == first + Range(s.notified, b);
    RangePrefix(s.notified, b, t.notified);
    var got := Delivered(t.deliveries, o) + Pending(t, q, o);
    assert Delivered(t.deliveries, o) <= got <= owed <= first + Range(s.notified, t.notified);
  }

  lemma RangeEmpty(a: nat)
    ensures Range(a, a) == []
  {
  }

  lemma RangePrefix(a: nat, b: nat, c: nat)
    ensures a <= b <= c ==> Range(a, b) <= Range(a, c)
  {
  }

  lemma AddRegisters(s: State, o: Observer, q: Sequence)
    requires Enabled(s, AddObserver(o, q))
    ensures var t := Step(s, AddObserver(o, q)); o in t.observers && t.notified == s.notified
  {
  }

  /** The notification to catch up with was issued before the registration, so no delivery is repeated. */
  lemma OwedHasNoDuplicates(s: State, q: Sequence, b: nat)
    requires Top(s, q).Some? ==> Top(s, q).value.task.n < s.notified
    ensures var all := Catchup(s, q) + Range(s.notified, b);
            forall i, j :: 0 <= i < j < |all| ==> all[i] < all[j]
  {
  }

  // ----- removal -----

  /** Once `o` is gone and nothing is past the check for it, nothing more is ever delivered to it. */
  lemma {:induction false} SilentAfterRemoval(s: State, o: Observer, q: Sequence, owed: seq<nat>, actions: seq<Action>)
    requires Tracks(s, o, q, owed) && o !in s.observers && Pending(s, q, o) == []
    requires IsRun(s, actions) && NeverAdds(actions, o)
    ensures Delivered(After(s, actions).deliveries, o) == Delivered(s.deliveries, o)
    decreases |actions|
  {
    hide Tracks, Enabled;
    if actions != [] {
      var t := Step(s, actions[0]);
      StepTracks(s, o, q, owed, actions[0]);
      GoneStaysQuiet(s, o, q, owed, actions[0]);
      SilentAfterRemoval(t, o, q, Owed(s, o, actions[0], owed), actions[1..]);
    }
  }

  lemma GoneStaysQuiet(s: State, o: Observer, q: Sequence, owed: seq<nat>, a: Action)
    requires Tracks(s, o, q, owed) && o !in s.observers && Pending(s, q, o) == []
    requires Enabled(s, a) && !(a.AddObserver? && a.o == o)
    ensures var t := Step(s, a);
            o !in t.observers && Pending(t, q, o) == [] && Delivered(t.deliveries, o) == Delivered(s.deliveries, o)
  {
    hide Queued, Delivered, Pending, Step, Enabled, OnlyTopChecked;
    match a
    case Check(p) => CheckEffect(s, p, o);
    case Begin(p) =>
      BeginEffect(s, p, o);
      assert Pending(s, p, o) == [];
      assert Delivered(s.deliveries, o) + [] == Delivered(s.deliveries, o);
    case Finish(p) => FinishEffect(s, p, o);
    case _ => FramesStay(s, a, o);
  }

  /** An observer removed on its own sequence: no callback starts afterwards. */
  lemma RemovedOnItsSequence(s: State, o: Observer, q: Sequence, owed: seq<nat>, actions: seq<Action>)
    requires Tracks(s, o, q, owed) && Enabled(s, RemoveObserver(o, q))
    requires IsRun(Step(s, RemoveObserver(o, q)), actions) && NeverAdds(actions, o)
    ensures Delivered(After(Step(s, RemoveObserver(o, q)), actions).deliveries, o) == Delivered(s.deliveries, o)
  {
    hide Tracks, Delivered;
    RemoveTracks(s, o, q, owed, o, q);
    SilentAfterRemoval(Step(s, RemoveObserver(o, q)), o, q, owed, actions);
  }

  /** Removed from elsewhere, it may still get the one notification that had already passed the check, and no other. */
  lemma {:induction false} RemovedElsewhere(s: State, o: Observer, q: Sequence, owed: seq<nat>, actions: seq<Action>)
    requires Tracks(s, o, q, owed) && o !in s.observers && IsRun(s, actions) && NeverAdds(actions, o)
    ensures var d := Delivered(After(s, actions).deliveries, o);
            d == Delivered(s.deliveries, o) || d == Delivered(s.deliveries, o) + Pending(s, q, o)
    decreases |actions|
  {
    hide Tracks, Enabled, Delivered;
    if Pending(s, q, o) == [] {
      SilentAfterRemoval(s, o, q, owed, actions);
    } else if actions != [] {
      var t := Step(s, actions[0]);
      StepTracks(s, o, q, owed, actions[0]);
      PendingRuns(s, o, q, owed, actions[0]);
      if Pending(t, q, o) == [] {
        SilentAfterRemoval(t, o, q, Owed(s, o, actions[0], owed), actions[1..]);
      } else {
        RemovedElsewhere(t, o, q, Owed(s, o, actions[0], owed), actions[1..]);
      }
    }
  }

  lemma PendingRuns(s: State, o: Observer, q: Sequence, owed: seq<nat>, a: Action)
    requires Tracks(s, o, q, owed) && o !in s.observers && Pending(s, q, o) != []
    requires Enabled(s, a) && !(a.AddObserver? && a.o == o)
    ensures var t := Step(s, a);
            && o !in t.observers
            && if a == Begin(q) then
                 Pending(t, q, o) == [] && Delivered(t.deliveries, o) == Delivered(s.deliveries, o) + Pending(s, q, o)
               else Pending(t, q, o) == Pending(s, q, o) && Delivered(t.deliveries, o) == Delivered(s.deliveries, o)
  {
    hide Queued, Delivered, Pending, Step, OnlyTopChecked;
    match a
    case Check(p) =>
      CheckEffect(s, p, o);
    case Begin(p) =>
      BeginEffect(s, p, o);
      assert Delivered(s.deliveries, o) + [] == Delivered(s.deliveries, o);
    case Finish(p) => FinishEffect(s, p, o);
    case _ => FramesStay(s, a, o);
  }

  // ----- from the start -----

  function Start(policy: Policy): State {
    State(map[], map[], map[], 0, [], policy)
  }

  /** Every posted or dispatched notification was issued. */
  ghost predicate Issued(s: State) {
    IssuedTasks(s.queues, s.notified) && forall q: Sequence, f :: f in Frames(s, q) ==> f.task.n < s.notified
  }

  ghost predicate IssuedTasks(queues: map<Sequence, seq<Task>>, n: nat) {
    forall q: Sequence, t :: t in Queue(queues, q) ==> t.n < n
  }

  lemma PostIssued(queues: map<Sequence, seq<Task>>, q: Sequence, t: Task, n: nat)
    requires IssuedTasks(queues, n) && t.n < n
    ensures IssuedTasks(Post(queues, q, t), n)
  {
    forall p: Sequence, x | x in Queue(Post(queues, q, t), p) ensures x.n < n {
      assert p == q ==> x in Queue(queues, q) || x == t;
      assert p != q ==> x in Queue(queues, p);
    }
  }

  lemma {:induction false} PostAllIssued(queues: map<Sequence, seq<Task>>, observers: map<Observer, Sequence>, order: seq<Observer>, n: nat)
    requires forall i :: 0 <= i < |order| ==> order[i] in observers
    requires IssuedTasks(queues, n + 1)
    ensures IssuedTasks(PostAll(queues, observers, order, n), n + 1)
    decreases |order|
  {
    hide IssuedTasks;
    if order != [] {
      var k := |order| - 1;
      PostAllIssued(queues, observers, order[..k], n);
      PostIssued(PostAll(queues, observers, order[..k], n), observers[order[k]], Task(order[k], n), n + 1);
    }
  }

  lemma NotifyIssued(s: State, a: Action)
    requires Issued(s) && Enabled(s, a) && a.Notify?
    ensures Issued(Step(s, a))
  {
    hide PostAll;
    assert IssuedTasks(s.queues, s.notified + 1);
    PostAllIssued(s.queues, s.observers, a.order, s.notified);
    assert forall q: Sequence :: Frames(Step(s, a), q) == Frames(s, q);
  }

  lemma MoveIssued(s: State, t: State, q: Sequence)
    requires Issued(s) && t.notified == s.notified && IssuedTasks(t.queues, t.notified)
    requires forall p: Sequence :: p != q ==> Frames(t, p) == Frames(s, p)
    requires forall f :: f in Frames(t, q) ==> f.task.n < s.notified
    ensures Issued(t)
  {
    hide IssuedTasks;
    forall p: Sequence, f | f in Frames(t, p) ensures f.task.n < s.notified {
      assert p != q ==> f in Frames(s, p);
    }
  }

  lemma CheckIssued(s: State, q: Sequence)
    requires Issued(s) && Enabled(s, Check(q))
    ensures Issued(Step(s, Check(q)))
  {
    var t := Step(s, Check(q));
    var queue := Queue(s.queues, q);
    assert queue[0] in queue;
    forall p: Sequence, x | x in Queue(t.queues, p) ensures x.n < s.notified {
      assert x in Queue(s.queues, p);
    }
    MoveIssued(s, t, q);
  }

  lemma TopIssued(s: State, q: Sequence)
    requires Issued(s) && Top(s, q).Some?
    ensures Top(s, q).value.task.n < s.notified
  {
    var f := Frames(s, q);
    assert f[|f| - 1] in f;
  }

  lemma StepIssued(s: State, a: Action)
    requires Issued(s) && Enabled(s, a)
    ensures Issued(Step(s, a))
  {
    hide IssuedTasks, PostAll;
    match a
    case Notify(_, _) => NotifyIssued(s, a);
    case AddObserver(o, q) =>
      if Catchup(s, q) != [] {
        TopIssued(s, q);
        PostIssued(s.queues, q, Task(o, Catchup(s, q)[0]), s.notified);
      }
      MoveIssued(s, Step(s, a), q);
    case RemoveObserver(_, _) =>
      assert forall p: Sequence :: Frames(Step(s, a), p) == Frames(s, p);
      MoveIssued(s, Step(s, a), 0);
    case Check(q) => CheckIssued(s, q);
    case Begin(q) =>
      TopIssued(s, q);
      MoveIssued(s, Step(s, a), q);
    case Finish(q) => MoveIssued(s, Step(s, a), q);
  }

  /** Nothing reaches an observer that was never registered. */
  lemma UnknownStays(s: State, o: Observer, a: Action)
    requires Unknown(s, o) && OnlyTopChecked(s) && Enabled(s, a) && !(a.AddObserver? && a.o == o)
    ensures Unknown(Step(s, a), o) && OnlyTopChecked(Step(s, a))
  {
    hide Tracks, Enabled, Step, Queued, Pending;
    var t := Step(s, a);
    forall q: Sequence ensures Queued(Queue(t.queues, q), o) == [] && Pending(t, q, o) == [] {
      UnknownTracks(s, o, q + 1);
      StepTracks(s, o, q + 1, [], a);
      TracksElsewhere(t, o, q + 1, q, []);
    }
    UnknownTracks(s, o, 0);
    StepTracks(s, o, 0, [], a);
    UnknownTracks(s, o, 1);
    StepTracks(s, o, 1, [], a);
    NoDeliveries(s, t, o, a);
  }

  lemma UnknownTracks(s: State, o: Observer, q: Sequence)
    requires Unknown(s, o) && OnlyTopChecked(s)
    ensures Tracks(s, o, q, [])
  {
    DeliveredNone(s.deliveries, o);
  }

  lemma TracksElsewhere(s: State, o: Observer, q: Sequence, p: Sequence, owed: seq<nat>)
    ensures Tracks(s, o, q, owed) && p != q ==> Queued(Queue(s.queues, p), o) == [] && Pending(s, p, o) == []
  {
  }

  lemma NoDeliveries(s: State, t: State, o: Observer, a: Action)
    requires Unknown(s, o) && Tracks(t, o, 0, []) && Tracks(t, o, 1, [])
    requires Enabled(s, a) && t == Step(s, a) && !(a.AddObserver? && a.o == o)
    ensures OnlyTopChecked(t) && o !in t.observers && forall d :: d in t.deliveries ==> d.observer != o
  {
    hide Queued, PostAll, Pending, Frames;
    assert forall d :: d in t.deliveries && d.observer == o ==> d.on == 0;
    assert forall d :: d in t.deliveries && d.observer == o ==> d.on == 1;
  }

  ghost predicate Ready(s: State, o: Observer) {
    Unknown(s, o) && OnlyTopChecked(s) && Issued(s)
  }

  lemma {:induction false} ReadyAfter(s: State, o: Observer, actions: seq<Action>)
    requires Ready(s, o) && IsRun(s, actions) && NeverAdds(actions, o)
    ensures Ready(After(s, actions), o)
    decreases |actions|
  {
    hide Unknown, OnlyTopChecked, Issued, Enabled, Step;
    if actions != [] {
      StepIssued(s, actions[0]);
      UnknownStays(s, o, actions[0]);
      ReadyAfter(Step(s, actions[0]), o, actions[1..]);
    }
  }

  /**
   * The whole life of an observer that is registered once, from the empty list on: at every moment its deliveries
   * are strictly increasing, hence without repetition, all on its own sequence, and an initial part of what it is owed.
   */
  lemma WholeRun(policy: Policy, o: Observer, q: Sequence, before: seq<Action>, actions: seq<Action>)
    requires IsRun(Start(policy), before) && NeverAdds(before, o)
    requires Enabled(After(Start(policy), before), AddObserver(o, q))
    requires IsRun(Step(After(Start(policy), before), AddObserver(o, q)), actions) && NeverAdds(actions, o)
    ensures var s := After(Start(policy), before);
            var t := After(Step(s, AddObserver(o, q)), actions);
            var got := Delivered(t.deliveries, o);
            && got <= Catchup(s, q) + Range(s.notified, t.notified)
            && (forall i, j :: 0 <= i < j < |got| ==> got[i] < got[j])
            && (forall d :: d in t.deliveries && d.observer == o ==> d.on == q)
            && (NeverRemoves(actions, o) && Pending(t, q, o) == [] && Queued(Queue(t.queues, q), o) == [] ==>
                  got == Catchup(s, q) + Range(s.notified, t.notified))
  {
    hide Enabled, Step, Delivered, Queued, Pending, IsRun;
    assert Ready(Start(policy), o) by { StartIsReady(policy, o); }
    ReadyAfter(Start(policy), o, before);
    var s := After(Start(policy), before);
    DeliveriesAreInOrder(s, o, q, actions);
    var t := After(Step(s, AddObserver(o, q)), actions);
    if Top(s, q).Some? {
      TopIssued(s, q);
    }
    OwedHasNoDuplicates(s, q, t.notified);
    var got := Delivered(t.deliveries, o);
    assert got + [] + [] == got;
  }

  /** `o` is registered on `q` after `before`, and `during` has happened since. */
  ghost predicate Registered(policy: Policy, o: Observer, q: Sequence, before: seq<Action>, during: seq<Action>) {
    && IsRun(Start(policy), before) && NeverAdds(before, o)
    && Enabled(After(Start(policy), before), AddObserver(o, q))
    && IsRun(Step(After(Start(policy), before), AddObserver(o, q)), during) && NeverAdds(during, o)
  }

  ghost function AtRemoval(policy: Policy, o: Observer, q: Sequence, before: seq<Action>, during: seq<Action>): State
    requires Registered(policy, o, q, before, during)
  {
    After(Step(After(Start(policy), before), AddObserver(o, q)), during)
  }

  lemma RegisteredTracks(policy: Policy, o: Observer, q: Sequence, before: seq<Action>, during: seq<Action>) returns (owed: seq<nat>)
    requires Registered(policy, o, q, before, during)
    ensures Tracks(AtRemoval(policy, o, q, before, during), o, q, owed)
  {
    hide Enabled, Step, IsRun, Tracks;
    assert Ready(Start(policy), o) by { StartIsReady(policy, o); }
    ReadyAfter(Start(policy), o, before);
    var s := After(Start(policy), before);
    AddOpensAccount(s, o, q);
    RunTracks(Step(s, AddObserver(o, q)), o, q, Catchup(s, q), during);
    owed := OwedAfter(Step(s, AddObserver(o, q)), o, during, Catchup(s, q));
  }

  /**
   * Removal, from the empty list on and over every interleaving: on the observer's own sequence nothing is
   * delivered afterwards; from another sequence at most the one notification that had passed the check.
   */
  lemma WholeRunWithRemoval(policy: Policy, o: Observer, q: Sequence, before: seq<Action>, during: seq<Action>,
                            from: Sequence, after: seq<Action>)
    requires Registered(policy, o, q, before, during)
    requires Enabled(AtRemoval(policy, o, q, before, during), RemoveObserver(o, from))
    requires IsRun(Step(AtRemoval(policy, o, q, before, during), RemoveObserver(o, from)), after) && NeverAdds(after, o)
    ensures var s := AtRemoval(policy, o, q, before, during);
            var got := Delivered(s.deliveries, o);
            var all := Delivered(After(Step(s, RemoveObserver(o, from)), after).deliveries, o);
            && |Pending(s, q, o)| <= 1
            && (from == q ==> all == got)
            && (all == got || all == got + Pending(s, q, o))
  {
    hide Delivered, Tracks, Registered, AtRemoval, IsRun;
    var s := AtRemoval(policy, o, q, before, during);
    var owed := RegisteredTracks(policy, o, q, before, during);
    if from == q {
      RemovedOnItsSequence(s, o, q, owed, after);
    } else {
      RemoveTracks(s, o, q, owed, o, from);
      FramesStay(s, RemoveObserver(o, from), o);
      RemovedElsewhere(Step(s, RemoveObserver(o, from)), o, q, owed, after);
    }
  }

  lemma StartIsReady(policy: Policy, o: Observer)
    ensures Ready(Start(policy), o)
  {
  }
}
