/**
 * Which notification a new observer of `ObserverListThreadSafe` catches up with, told from the run alone: the one
 * whose callback is the innermost on the registering sequence, under ALL, and none under EXISTING_ONLY.
 */
module ThreadSafePolicy {
  import opened Bytes
  import opened ThreadSafeNotify

  /** The callbacks `q` is inside, outermost first. */
  function Callbacks(s: State, q: Sequence): seq<Frame> {
    if Free(s, q) then Frames(s, q) else Frames(s, q)[..|Frames(s, q)| - 1]
  }

  /** No callback returns on `q` but those that began in `actions` and `more` before them, and all of those do. */
  predicate Returned(actions: seq<Action>, q: Sequence, more: nat)
    decreases |actions|
  {
    if actions == [] then more == 0
    else if actions[0] == Begin(q) then Returned(actions[1..], q, more + 1)
    else if actions[0] == Finish(q) then more > 0 && Returned(actions[1..], q, more - 1)
    else Returned(actions[1..], q, more)
  }

  lemma StepCallbacks(s: State, a: Action, q: Sequence)
    requires OnlyTopChecked(s) && Enabled(s, a)
    ensures var c, d := Callbacks(s, q), Callbacks(Step(s, a), q);
            if a == Begin(q) then |d| == |c| + 1 && d[..|c|] == c
            else if a == Finish(q) then |c| > 0 && d == c[..|c| - 1]
            else d == c
  {
    hide PostAll, IsOrderOf;
    var t := Step(s, a);
    var f, g := Frames(s, q), Frames(t, q);
    match a
    case Check(p) =>
      var task := Queue(s.queues, p)[0];
      assert p == q ==> g == if task.observer in s.observers then f + [Checked(task)] else f;
    case Begin(p) =>
      assert p == q ==> g == f[..|f| - 1] + [Running(Top(s, q).value.task)];
    case Finish(p) =>
      assert p == q ==> g == f[..|f| - 1];
      assert p == q && |f| > 1 ==> f[|f| - 2].Running?;
    case _ =>
      assert g == f;
  }

  /** Nested dispatching: when the callbacks that began have returned, `q` is inside the same callbacks as before. */
  lemma {:induction false} CallbacksNest(s: State, actions: seq<Action>, q: Sequence, more: nat)
    requires OnlyTopChecked(s) && IsRun(s, actions)
    requires Returned(actions, q, more) && more <= |Callbacks(s, q)|
    ensures Callbacks(After(s, actions), q) == Callbacks(s, q)[..|Callbacks(s, q)| - more]
    decreases |actions|
  {
    hide OnlyTopChecked, Step, Enabled, Callbacks;
    if actions != [] {
      var a := actions[0];
      var t := Step(s, a);
      StepCallbacks(s, a, q);
      StepStaysChecked(s, a);
      var c := Callbacks(s, q);
      if a == Begin(q) {
        CallbacksNest(t, actions[1..], q, more + 1);
        assert Callbacks(t, q)[..|c| - more] == Callbacks(t, q)[..|c|][..|c| - more];
      } else if a == Finish(q) {
        CallbacksNest(t, actions[1..], q, more - 1);
        assert c[..|c| - 1][..|c| - more] == c[..|c| - more];
      } else {
        CallbacksNest(t, actions[1..], q, more);
      }
    }
  }

  lemma {:induction false} PolicyStays(s: State, actions: seq<Action>)
    requires IsRun(s, actions)
    ensures After(s, actions).policy == s.policy
    decreases |actions|
  {
    hide Enabled, PostAll;
    if actions != [] {
      PolicyStays(Step(s, actions[0]), actions[1..]);
    }
  }

  /** The last delivery is that of the callback that has just begun. */
  lemma BegunIsInnermost(s: State, q: Sequence)
    requires Enabled(s, Begin(q))
    ensures var t := Step(s, Begin(q));
            && |t.deliveries| == |s.deliveries| + 1 && t.deliveries[|s.deliveries|].on == q && t.policy == s.policy
            && Free(t, q) && Frames(t, q) != []
            && Frames(t, q)[|Frames(t, q)| - 1].task.n == t.deliveries[|s.deliveries|].n
  {
  }

  /**
   * Under ALL, an observer that registers on `q` inside the callback that `Begin(q)` starts, whatever else has begun
   * and returned in between, gets that callback's notification first and then all later ones in order.
   */
  lemma InnermostIsCaughtUp(o: Observer, q: Sequence, before: seq<Action>, nested: seq<Action>, actions: seq<Action>)
    requires IsRun(Start(ObserverSlots.All), before) && NeverAdds(before, o)
    requires Enabled(After(Start(ObserverSlots.All), before), Begin(q))
    requires var begun := Step(After(Start(ObserverSlots.All), before), Begin(q));
             && IsRun(begun, nested) && NeverAdds(nested, o) && Returned(nested, q, 0)
             && Enabled(After(begun, nested), AddObserver(o, q))
             && IsRun(Step(After(begun, nested), AddObserver(o, q)), actions) && NeverAdds(actions, o)
    ensures var begun := Step(After(Start(ObserverSlots.All), before), Begin(q));
            var s := After(begun, nested);
            var t := After(Step(s, AddObserver(o, q)), actions);
            && begun.deliveries != [] && begun.deliveries[|begun.deliveries| - 1].on == q
            && var all := [begun.deliveries[|begun.deliveries| - 1].n] + Range(s.notified, t.notified);
               && Delivered(t.deliveries, o) <= all
               && (NeverRemoves(actions, o) ==>
                     Delivered(t.deliveries, o) + Pending(t, q, o) + Queued(Queue(t.queues, q), o) == all)
  {
    hide Enabled, Step, Delivered, Queued, Pending, IsRun, NeverAdds, NeverRemoves, Unknown, OnlyTopChecked, Issued, Returned, Range;
    var start := Start(ObserverSlots.All);
    assert Ready(start, o) by { StartIsReady(ObserverSlots.All, o); }
    ReadyAfter(start, o, before);
    PolicyStays(start, before);
    var u := After(start, before);
    BegunIsInnermost(u, q);
    StepIssued(u, Begin(q));
    UnknownStays(u, o, Begin(q));
    var begun := Step(u, Begin(q));
    ReadyAfter(begun, o, nested);
    PolicyStays(begun, nested);
    CallbacksNest(begun, nested, q, 0);
    var s := After(begun, nested);
    assert Free(s, q) by { FreeToAdd(s, o, q); }
    assert Frames(s, q) == Frames(begun, q);
    DeliveriesAreInOrder(s, o, q, actions);
  }

  lemma FreeToAdd(s: State, o: Observer, q: Sequence)
    requires Enabled(s, AddObserver(o, q))
    ensures Free(s, q)
  {
  }

  /**
   * Under EXISTING_ONLY, and under ALL when every callback that began on `q` has returned, an observer that registers
   * there gets exactly the notifications issued from then on.
   */
  lemma OnlyLaterOnes(policy: Policy, o: Observer, q: Sequence, before: seq<Action>, actions: seq<Action>)
    requires Registered(policy, o, q, before, actions)
    requires policy == ObserverSlots.ExistingOnly || Returned(before, q, 0)
    ensures var s := After(Start(policy), before);
            var t := After(Step(s, AddObserver(o, q)), actions);
            && Delivered(t.deliveries, o) <= Range(s.notified, t.notified)
            && (NeverRemoves(actions, o) ==>
                  Delivered(t.deliveries, o) + Pending(t, q, o) + Queued(Queue(t.queues, q), o) == Range(s.notified, t.notified))
  {
    hide Enabled, Step, Delivered, Queued, Pending, IsRun, NeverAdds, NeverRemoves, Unknown, OnlyTopChecked, Issued, Returned, Range;
    var start := Start(policy);
    assert Ready(start, o) by { StartIsReady(policy, o); }
    ReadyAfter(start, o, before);
    PolicyStays(start, before);
    var s := After(start, before);
    if Returned(before, q, 0) {
      CallbacksNest(start, before, q, 0);
      FreeToAdd(s, o, q);
    }
    DeliveriesAreInOrder(s, o, q, actions);
    var later := Range(s.notified, After(Step(s, AddObserver(o, q)), actions).notified);
    assert [] + later == later;
  }
}
