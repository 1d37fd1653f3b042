/** The methods of `ObserverListThreadSafe`, each proved to be one or two steps of the protocol. */
module ThreadSafeList {
  import opened Bytes
  import opened ThreadSafeNotify

  class List {
    var observers: map<Observer, Sequence>
    var queues: map<Sequence, seq<Task>>
    var frames: map<Sequence, seq<Frame>>
    var notified: nat
    var deliveries: seq<Delivery>
    const policy: Policy

    function View(): State
      reads this
    {
      State(observers, queues, frames, notified, deliveries, policy)
    }

    constructor (policy: Policy)
      ensures View() == Start(policy)
    {
      this.policy := policy;
      observers, queues, frames, notified, deliveries := map[], map[], map[], 0, [];
    }

    /** Does nothing on a thread without a task runner; registers for the calling sequence otherwise. */
    method Add(o: Observer, handle: Option<Sequence>)
      requires handle.Some? ==> Enabled(View(), AddObserver(o, handle.value))
      modifies this`observers, this`queues
      ensures View() == if handle.None? then old(View()) else Step(old(View()), AddObserver(o, handle.value))
    {
      if handle.None? {
        return;
      }
      var q := handle.value;
      observers := observers[o := q];
      if policy.All? {
        var current := Top(View(), q);
        if current.Some? {
          queues := Post(queues, q, Task(o, current.value.task.n));
        }
      }
    }

    method Remove(o: Observer, from: Sequence)
      requires Enabled(View(), RemoveObserver(o, from))
      modifies this`observers
      ensures View() == Step(old(View()), RemoveObserver(o, from))
    {
      observers := observers - {o};
    }

    /** Posts one task for each entry of the map; `order` is the order in which the map yields its entries. */
    method NotifyAll(from: Sequence, order: seq<Observer>)
      requires Enabled(View(), Notify(from, order))
      modifies this`queues, this`notified
      ensures View() == Step(old(View()), Notify(from, order))
    {
      hide PostAll, Free;
      PostNone(queues, observers, notified);
      for i := 0 to |order|
        invariant notified == old(notified) && queues == PostAll(old(queues), observers, order[..i], notified)
      {
        var o := order[i];
        PostOneMore(old(queues), observers, order[..i], o, notified);
        assert order[..i + 1] == order[..i] + [o];
        queues := Post(queues, observers[o], Task(o, notified));
      }
      assert order[..|order|] == order;
      notified := notified + 1;
    }

    /** The next task of `q`: the half of `NotifyWrapper` under the lock. */
    method CheckNext(q: Sequence)
      requires Enabled(View(), Check(q))
      modifies this`queues, this`frames
      ensures View() == Step(old(View()), Check(q))
    {
      var task := Queue(queues, q)[0];
      queues := queues[q := Queue(queues, q)[1..]];
      if task.observer in observers {
        frames := frames[q := Frames(View(), q) + [Checked(task)]];
      }
    }

    /** The thread-local current notification is set and the callback starts. */
    method BeginCallback(q: Sequence)
      requires Enabled(View(), Begin(q))
      modifies this`frames, this`deliveries
      ensures View() == Step(old(View()), Begin(q))
    {
      var task := Top(View(), q).value.task;
      var below := Frames(View(), q)[..|Frames(View(), q)| - 1];
      deliveries := deliveries + [Delivery(task.observer, task.n, q)];
      frames := frames[q := below + [Running(task)]];
      assert frames == old(frames)[q := below][q := below + [Running(task)]];
    }

    /** The callback returns and the previous notification is current again. */
    method FinishCallback(q: Sequence)
      requires Enabled(View(), Finish(q))
      modifies this`frames
      ensures View() == Step(old(View()), Finish(q))
    {
      frames := frames[q := Frames(View(), q)[..|Frames(View(), q)| - 1]];
    }
  }

  lemma PostNone(queues: map<Sequence, seq<Task>>, observers: map<Observer, Sequence>, n: nat)
    ensures PostAll(queues, observers, [], n) == queues
  {
  }

  lemma PostOneMore(queues: map<Sequence, seq<Task>>, observers: map<Observer, Sequence>, order: seq<Observer>, o: Observer, n: nat)
    requires o in observers && forall i :: 0 <= i < |order| ==> order[i] in observers
    ensures PostAll(queues, observers, order + [o], n) == Post(PostAll(queues, observers, order, n), observers[o], Task(o, n))
  {
    assert (order + [o])[..|order|] == order;
  }
}
