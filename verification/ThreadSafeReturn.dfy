/**
 * Registering an observer again.  A removal aborts the notifications queued for the observer only as long as it is
 * not registered again: the check of `NotifyWrapper` asks for the observer, not for the registration.
 */
module ThreadSafeReturn {
  import opened Bytes
  import opened ThreadSafeNotify

  /** No notification for `o` is queued or past its check. */
  ghost predicate Quiet(s: State, o: Observer) {
    forall q: Sequence :: Queued(Queue(s.queues, q), o) == [] && Pending(s, q, o) == []
  }

  /** What `o` gets from a registration on `q` at `s`: what that registration is owed, in order and on `q`. */
  ghost predicate KeepsPromise(s: State, t: State, o: Observer, q: Sequence) {
    && s.deliveries <= t.deliveries
    && var since := t.deliveries[|s.deliveries|..];
       && Delivered(since, o) <= Catchup(s, q) + Range(s.notified, t.notified)
       && forall d :: d in since && d.observer == o ==> d.on == q
  }

  // ----- what was delivered before does not matter -----

  /** The two states differ in their past deliveries at most. */
  predicate Alike(s: State, s': State) {
    s.(deliveries := []) == s'.(deliveries := [])
  }

  /** Both states have had the same deliveries since `s` and `s'`. */
  predicate SameSince(s: State, t: State, s': State, t': State) {
    && s.deliveries <= t.deliveries && s'.deliveries <= t'.deliveries
    && t.deliveries[|s.deliveries|..] == t'.deliveries[|s'.deliveries|..]
  }

  lemma StepAlike(s: State, s': State, a: Action)
    requires Alike(s, s') && Enabled(s, a)
    ensures Enabled(s', a) && Alike(Step(s, a), Step(s', a)) && SameSince(s, Step(s, a), s', Step(s', a))
  {
    hide PostAll, IsOrderOf;
    assert forall q: Sequence :: Frames(s, q) == Frames(s', q);
  }

  lemma SinceTransitive(s: State, u: State, t: State, s': State, u': State, t': State)
    requires SameSince(s, u, s', u') && SameSince(u, t, u', t')
    ensures SameSince(s, t, s', t')
  {
    var n, n' := |s.deliveries|, |s'.deliveries|;
    assert t.deliveries[n..] == u.deliveries[n..] + t.deliveries[|u.deliveries|..];
    assert t'.deliveries[n'..] == u'.deliveries[n'..] + t'.deliveries[|u'.deliveries|..];
  }

  lemma {:induction false} RunAlike(s: State, s': State, actions: seq<Action>)
    requires Alike(s, s') && IsRun(s, actions)
    ensures IsRun(s', actions)
    ensures Alike(After(s, actions), After(s', actions)) && SameSince(s, After(s, actions), s', After(s', actions))
    decreases |actions|
  {
    hide Enabled, Step, Alike, SameSince;
    if actions == [] {
      assert SameSince(s, s, s', s') by { NothingSince(s, s'); }
    } else {
      StepAlike(s, s', actions[0]);
      var u, u' := Step(s, actions[0]), Step(s', actions[0]);
      RunAlike(u, u', actions[1..]);
      SinceTransitive(s, u, After(u, actions[1..]), s', u', After(u', actions[1..]));
    }
  }

  lemma NothingSince(s: State, s': State)
    ensures SameSince(s, s, s', s')
  {
  }

  /** When nothing is left over from an earlier registration, the new one gets its own notifications and no others. */
  lemma QuietReturn(s: State, o: Observer, q: Sequence, actions: seq<Action>)
    requires Quiet(s, o) && OnlyTopChecked(s) && Enabled(s, AddObserver(o, q))
    requires IsRun(Step(s, AddObserver(o, q)), actions) && NeverAdds(actions, o)
    ensures var t := After(Step(s, AddObserver(o, q)), actions);
            && KeepsPromise(s, t, o, q)
            && (NeverRemoves(actions, o) && Pending(t, q, o) == [] && Queued(Queue(t.queues, q), o) == [] ==>
                  Delivered(t.deliveries[|s.deliveries|..], o) == Catchup(s, q) + Range(s.notified, t.notified))
  {
    hide Step, Enabled, IsRun, Delivered, Queued, Range;
    var s' := s.(deliveries := []);
    assert Alike(s, s');
    StepAlike(s, s', AddObserver(o, q));
    var u, u' := Step(s, AddObserver(o, q)), Step(s', AddObserver(o, q));
    RunAlike(u, u', actions);
    var t, t' := After(u, actions), After(u', actions);
    SinceTransitive(s, u, t, s', u', t');
    assert Unknown(s', o) by { Forgotten(s, o, q); }
    assert OnlyTopChecked(s') by { assert forall p: Sequence :: Frames(s', p) == Frames(s, p); }
    DeliveriesAreInOrder(s', o, q, actions);
    assert t'.deliveries[0..] == t'.deliveries;
    var got := Delivered(t'.deliveries, o);
    assert got + [] + [] == got;
  }

  lemma Forgotten(s: State, o: Observer, q: Sequence)
    requires Quiet(s, o) && Enabled(s, AddObserver(o, q))
    ensures Unknown(s.(deliveries := []), o)
  {
    hide Queued;
    var s' := s.(deliveries := []);
    assert forall p: Sequence :: Pending(s', p, o) == Pending(s, p, o);
  }

  // ----- what is left over can always still be delivered -----

  lemma {:induction false} DeliveredConcat(a: seq<Delivery>, b: seq<Delivery>, o: Observer)
    ensures Delivered(a + b, o) == Delivered(a, o) + Delivered(b, o)
    decreases |b|
  {
    if b == [] {
      assert a + b == a;
    } else {
      assert (a + b)[..|a| + |b| - 1] == a + b[..|b| - 1];
      DeliveredConcat(a, b[..|b| - 1], o);
    }
  }

  /** Since `s`, `o` was delivered exactly `ns`, and everything delivered was delivered on `p`. */
  ghost predicate Gave(s: State, t: State, o: Observer, p: Sequence, ns: seq<nat>) {
    && s.deliveries <= t.deliveries && t.notified == s.notified
    && var since := t.deliveries[|s.deliveries|..];
       Delivered(since, o) == ns && forall d :: d in since ==> d.on == p
  }

  lemma GaveTwice(s: State, u: State, t: State, o: Observer, p: Sequence, ms: seq<nat>, ns: seq<nat>)
    requires Gave(s, u, o, p, ms) && Gave(u, t, o, p, ns)
    ensures Gave(s, t, o, p, ms + ns)
  {
    hide Delivered;
    var x, y := u.deliveries[|s.deliveries|..], t.deliveries[|u.deliveries|..];
    assert t.deliveries[|s.deliveries|..] == x + y;
    DeliveredConcat(x, y, o);
  }

  lemma CheckGives(s: State, p: Sequence, o: Observer)
    requires Enabled(s, Check(p))
    ensures Gave(s, Step(s, Check(p)), o, p, [])
  {
  }

  lemma BeginGives(s: State, p: Sequence, o: Observer)
    requires Enabled(s, Begin(p))
    ensures Gave(s, Step(s, Begin(p)), o, p, Pending(s, p, o))
  {
    var task := Top(s, p).value.task;
    var since: seq<Delivery> := [Delivery(task.observer, task.n, p)];
    assert Step(s, Begin(p)).deliveries[|s.deliveries|..] == since;
    assert since[..0] == [];
  }

  /** Running everything that waits on `p` delivers to `o` all that waits for it there. */
  lemma {:induction false} Drain(s: State, p: Sequence, o: Observer) returns (actions: seq<Action>)
    requires OnlyTopChecked(s) && o in s.observers
    ensures IsRun(s, actions) && NeverAdds(actions, o)
    ensures Gave(s, After(s, actions), o, p, Pending(s, p, o) + Queued(Queue(s.queues, p), o))
    decreases |Queue(s.queues, p)|, if Free(s, p) then 0 else 1
  {
    hide Queued, Delivered, Gave, OnlyTopChecked;
    if !Free(s, p) {
      var t := Step(s, Begin(p));
      BeginEffect(s, p, o);
      BeginGives(s, p, o);
      var more := Drain(t, p, o);
      actions := [Begin(p)] + more;
      assert actions[1..] == more;
      GaveTwice(s, t, After(t, more), o, p, Pending(s, p, o), [] + Queued(Queue(t.queues, p), o));
      assert [] + Queued(Queue(t.queues, p), o) == Queued(Queue(s.queues, p), o);
    } else if Queue(s.queues, p) != [] {
      var t := Step(s, Check(p));
      CheckEffect(s, p, o);
      CheckGives(s, p, o);
      var more := Drain(t, p, o);
      actions := [Check(p)] + more;
      assert actions[1..] == more;
      var rest := Pending(t, p, o) + Queued(Queue(t.queues, p), o);
      GaveTwice(s, t, After(t, more), o, p, [], rest);
      assert [] + rest == rest == Pending(s, p, o) + Queued(Queue(s.queues, p), o);
    } else {
      actions := [];
      GivesNothing(s, p, o);
    }
  }

  lemma GivesNothing(s: State, p: Sequence, o: Observer)
    requires Free(s, p) && Queue(s.queues, p) == []
    ensures Gave(s, s, o, p, Pending(s, p, o) + Queued(Queue(s.queues, p), o))
  {
  }

  lemma LeftOverBreaks(s: State, o: Observer, q: Sequence, p: Sequence) returns (actions: seq<Action>)
    requires OnlyTopChecked(s) && Enabled(s, AddObserver(o, q))
    requires Pending(s, p, o) + Queued(Queue(s.queues, p), o) != []
    ensures IsRun(Step(s, AddObserver(o, q)), actions) && NeverAdds(actions, o)
    ensures !KeepsPromise(s, After(Step(s, AddObserver(o, q)), actions), o, q)
  {
    hide Queued, Delivered, IsRun;
    var u := Step(s, AddObserver(o, q));
    FramesStay(s, AddObserver(o, q), o);
    AddEffect(s, o, q, o, p);
    actions := Drain(u, p, o);
    var t := After(u, actions);
    var since := t.deliveries[|s.deliveries|..];
    assert |Delivered(since, o)| > 0;
    if p == q {
      assert |Delivered(since, o)| > |Catchup(s, q)|;
    } else if forall d :: d in since ==> d.observer != o {
      DeliveredNone(since, o);
    }
  }

  /**
   * Exactly when a registration gets its own notifications and no others, whatever happens until the next one: when
   * no notification for the observer is queued or past its check at that moment.
   */
  lemma ReturnExactly(s: State, o: Observer, q: Sequence)
    requires OnlyTopChecked(s) && Enabled(s, AddObserver(o, q))
    ensures (forall actions :: IsRun(Step(s, AddObserver(o, q)), actions) && NeverAdds(actions, o) ==>
               KeepsPromise(s, After(Step(s, AddObserver(o, q)), actions), o, q)) <==> Quiet(s, o)
  {
    hide Step, Enabled, IsRun, KeepsPromise, Queued, Pending, OnlyTopChecked, NeverAdds, NeverRemoves;
    if Quiet(s, o) {
      forall actions | IsRun(Step(s, AddObserver(o, q)), actions) && NeverAdds(actions, o)
        ensures KeepsPromise(s, After(Step(s, AddObserver(o, q)), actions), o, q)
      {
        QuietReturn(s, o, q, actions);
      }
    } else {
      var p: Sequence :| Queued(Queue(s.queues, p), o) != [] || Pending(s, p, o) != [];
      var actions := LeftOverBreaks(s, o, q, p);
    }
  }

  // ----- from the empty list on -----

  lemma {:induction false} TopStaysChecked(s: State, actions: seq<Action>)
    requires OnlyTopChecked(s) && IsRun(s, actions)
    ensures OnlyTopChecked(After(s, actions))
    decreases |actions|
  {
    hide OnlyTopChecked, Step, Enabled;
    if actions != [] {
      StepStaysChecked(s, actions[0]);
      TopStaysChecked(Step(s, actions[0]), actions[1..]);
    }
  }

  /** The same for every registration of every run from the empty list, the observer's earlier ones included. */
  lemma EveryRegistration(policy: Policy, before: seq<Action>, o: Observer, q: Sequence)
    requires IsRun(Start(policy), before) && Enabled(After(Start(policy), before), AddObserver(o, q))
    ensures var s := After(Start(policy), before);
            (forall actions :: IsRun(Step(s, AddObserver(o, q)), actions) && NeverAdds(actions, o) ==>
               KeepsPromise(s, After(Step(s, AddObserver(o, q)), actions), o, q)) <==> Quiet(s, o)
  {
    hide Step, Enabled, IsRun, KeepsPromise, NeverAdds, Quiet;
    assert OnlyTopChecked(Start(policy));
    TopStaysChecked(Start(policy), before);
    ReturnExactly(After(Start(policy), before), o, q);
  }

  /**
   * A notification that was queued when its observer was removed and is delivered all the same, on the sequence of
   * the first registration.
   */
  lemma AbortedIsDelivered(policy: Policy, o: Observer)
    ensures var run := [AddObserver(o, 0), Notify(0, [o]), RemoveObserver(o, 0), AddObserver(o, 7), Check(0), Begin(0)];
            IsRun(Start(policy), run) && After(Start(policy), run).deliveries == [Delivery(o, 0, 0)]
  {
    hide IsRun, After;
    var s0 := Start(policy);
    var s1 := Step(s0, AddObserver(o, 0));
    NotifiesOne(s1, o);
    var s2 := Step(s1, Notify(0, [o]));
    var s3 := Step(s2, RemoveObserver(o, 0));
    var s4 := Step(s3, AddObserver(o, 7));
    var s5 := Step(s4, Check(0));
    var s6 := Step(s5, Begin(0));
    RunsTo(s6, [], s6);
    RunsTo(s5, [Begin(0)], s6);
    RunsTo(s4, [Check(0), Begin(0)], s6);
    RunsTo(s3, [AddObserver(o, 7), Check(0), Begin(0)], s6);
    RunsTo(s2, [RemoveObserver(o, 0), AddObserver(o, 7), Check(0), Begin(0)], s6);
    RunsTo(s1, [Notify(0, [o]), RemoveObserver(o, 0), AddObserver(o, 7), Check(0), Begin(0)], s6);
    RunsTo(s0, [AddObserver(o, 0), Notify(0, [o]), RemoveObserver(o, 0), AddObserver(o, 7), Check(0), Begin(0)], s6);
  }

  lemma NotifiesOne(s: State, o: Observer)
    requires s.observers == map[o := 0] && s.queues == map[] && Free(s, 0)
    ensures Enabled(s, Notify(0, [o]))
    ensures Step(s, Notify(0, [o])) == s.(queues := map[0 := [Task(o, s.notified)]], notified := s.notified + 1)
  {
    var order: seq<Observer> := [o];
    assert order[0] == o && order[..0] == [];
    var task := Task(o, s.notified);
    assert Queue(s.queues, 0) + [task] == [task];
    assert s.queues[0 := [task]] == map[0 := [task]];
    assert PostAll(s.queues, s.observers, order, s.notified) == map[0 := [task]];
  }

  lemma RunsTo(s: State, actions: seq<Action>, t: State)
    requires if actions == [] then s == t else
               Enabled(s, actions[0]) && IsRun(Step(s, actions[0]), actions[1..]) && After(Step(s, actions[0]), actions[1..]) == t
    ensures IsRun(s, actions) && After(s, actions) == t
  {
  }
}
