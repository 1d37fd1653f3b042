/** `CallbackListBase` and its iterators as objects, proved against the operations on states. */
module CallbackList {
  import opened Bytes
  import opened ObserverSlots
  import opened CallbackSpec

  class List {
    var callbacks: Slots
    var activeIteratorCount: nat
    /** The name the next subscription gets. */
    var next: Observer
    /** How often the removal callback has run. */
    var signals: nat
    ghost var iterators: set<Iterator>

    ghost function View(): Calls<Iterator>
      reads this, iterators
    {
      Calls(callbacks, map it | it in iterators :: it.position, activeIteratorCount, next, signals)
    }

    ghost predicate Valid()
      reads this, iterators
    {
      CallbackSpec.Inv(View())
    }

    constructor ()
      ensures Valid() && View() == Calls([], map[], 0, 0, 0)
    {
      callbacks, activeIteratorCount, next, signals := [], 0, 0, 0;
      iterators := {};
    }

    method Add() returns (cb: Observer)
      requires Valid()
      modifies this`callbacks, this`next
      ensures Valid() && cb == old(next) && View() == CallbackSpec.Step(old(View()), Subscribe)
    {
      hide CallbackSpec.Inv, Contents, Plainly;
      ghost var before := View();
      CallbackSpec.StepRefines(before, Subscribe);
      callbacks := callbacks + [Some(next)];
      cb := next;
      next := next + 1;
      assert View() == CallbackSpec.Step(before, Subscribe);
    }

    /** The node a subscription holds. */
    method Locate(cb: Observer) returns (i: nat)
      requires Some(cb) in callbacks
      ensures i == IndexOf(callbacks, cb) && i < |callbacks|
    {
      i := 0;
      while i < |callbacks| && callbacks[i] != Some(cb)
        invariant 0 <= i <= |callbacks|
        invariant forall j :: 0 <= j < i ==> callbacks[j] != Some(cb)
      {
        i := i + 1;
      }
    }

    /** The destructor of the subscription of `cb`. */
    method Cancel(cb: Observer)
      requires Valid() && Some(cb) in callbacks
      modifies this`callbacks, this`signals
      ensures Valid() && View() == CallbackSpec.Step(old(View()), Unsubscribe(cb))
    {
      hide CallbackSpec.Inv, IndexOf, Contents, Without;
      ghost var before := View();
      CallbackSpec.StepRefines(before, Unsubscribe(cb));
      var i := Locate(cb);
      if activeIteratorCount > 0 {
        callbacks := callbacks[i := None];
      } else {
        callbacks := callbacks[..i] + callbacks[i + 1..];
        signals := signals + 1;
      }
      assert View() == CallbackSpec.Step(before, Unsubscribe(cb));
    }

    /** `Compact`: erase the reset entries one by one. */
    method CompactList()
      modifies this`callbacks, this`signals
      ensures callbacks == Compact(old(callbacks))
      ensures signals == old(signals) + if None in old(callbacks) then 1 else 0
    {
      ghost var before := callbacks;
      var it, updated := 0, false;
      ghost var read := 0;
      while it < |callbacks|
        invariant it <= |callbacks| && read <= |before|
        invariant callbacks[..it] == Compact(before[..read]) && callbacks[it..] == before[read..]
        invariant (updated <==> None in before[..read]) && signals == old(signals)
        decreases |callbacks| - it
      {
        assert before[..read + 1][..read] == before[..read];
        assert before[read] == callbacks[it] by { assert callbacks[it..][0] == before[read..][0]; }
        if callbacks[it].None? {
          updated := true;
          assert callbacks[it + 1..] == callbacks[it..][1..] == before[read + 1..];
          callbacks := callbacks[..it] + callbacks[it + 1..];
        } else {
          assert callbacks[it + 1..] == callbacks[it..][1..] == before[read + 1..];
          assert callbacks[..it + 1] == callbacks[..it] + [callbacks[it]];
          it := it + 1;
        }
        assert None in before[..read + 1] <==> None in before[..read] || before[read] == None;
        read := read + 1;
      }
      assert before[read..] == [] && before[..read] == before;
      assert callbacks[..it] == callbacks;
      if updated {
        signals := signals + 1;
      }
    }
  }

  class Iterator {
    const list: List
    var position: Position

    constructor (l: List)
      requires l.Valid()
      modifies l`activeIteratorCount, l`iterators
      ensures list == l && l.Valid() && this in l.iterators && this !in old(l.iterators)
      ensures l.View() == CallbackSpec.Step(old(l.View()), Start(this))
    {
      list := l;
      position := PositionAt(l.callbacks, 0);
      new;
      hide CallbackSpec.Inv, Contents, Plainly;
      ghost var before := l.View();
      StartKeepsInv(before, this, position);
      l.activeIteratorCount := l.activeIteratorCount + 1;
      l.iterators := l.iterators + {this};
      assert l.View().cursors == before.cursors[this := position];
      assert l.View() == CallbackSpec.Step(before, Start(this));
    }

    /** The copy constructor: one more active iterator, at the same node. */
    constructor CopyOf(other: Iterator)
      requires other.list.Valid() && other in other.list.iterators
      modifies other.list`activeIteratorCount, other.list`iterators
      ensures list == other.list && list.Valid() && this in list.iterators && this !in old(other.list.iterators)
      ensures list.View() == CallbackSpec.Step(old(other.list.View()), Duplicate(this, other))
    {
      list := other.list;
      position := other.position;
      new;
      hide CallbackSpec.Inv, Contents, Plainly;
      ghost var before := list.View();
      PositionOnNode(before, other);
      StartKeepsInv(before, this, position);
      list.activeIteratorCount := list.activeIteratorCount + 1;
      list.iterators := list.iterators + {this};
      assert list.View().cursors == before.cursors[this := position];
      assert list.View() == CallbackSpec.Step(before, Duplicate(this, other));
    }

    /** `GetNext`: the next entry that is not reset, if there is one. */
    method Next() returns (cb: Option<Observer>)
      requires list.Valid() && this in list.iterators
      modifies this`position
      ensures list.Valid() && list.View() == CallbackSpec.Step(old(list.View()), Fetch(this))
      ensures var found := Found(old(list.View()), this); cb == if found.Some? then found.value.found else None
    {
      hide CallbackSpec.Inv, Contents, Plainly;
      ghost var before := list.View();
      FetchKeepsInv(before, this);
      PositionOnNode(before, this);
      cb := None;
      if position.At? {
        var i := position.index;
        while i < |list.callbacks| && list.callbacks[i].None?
          invariant position.index <= i <= |list.callbacks|
          invariant ObserverSlots.Next(list.callbacks, position.index, |list.callbacks|) ==
                    ObserverSlots.Next(list.callbacks, i, |list.callbacks|)
        {
          i := i + 1;
        }
        if i < |list.callbacks| {
          cb := list.callbacks[i];
          position := PositionAt(list.callbacks, i + 1);
        } else {
          position := Position.End;
        }
      }
      assert list.View().cursors == before.cursors[this := position];
      assert list.View() == CallbackSpec.Step(before, Fetch(this));
    }

    /** The destructor; the last iterator compacts the list. */
    method Release()
      requires list.Valid() && this in list.iterators
      modifies list
      ensures list.Valid() && old(list.View()).active > 0
      ensures list.View() == CallbackSpec.Step(old(list.View()), CallOp.Finish(this))
    {
      hide CallbackSpec.Inv, Compact, Contents;
      ghost var before := list.View();
      FinishRefines(before, this);
      list.activeIteratorCount := list.activeIteratorCount - 1;
      list.iterators := list.iterators - {this};
      if list.activeIteratorCount == 0 {
        list.CompactList();
      }
      assert list.View().cursors == before.cursors - {this};
      assert list.View() == CallbackSpec.Step(before, CallOp.Finish(this));
    }
  }

  lemma PositionOnNode(s: Calls<Iterator>, it: Iterator)
    requires CallbackSpec.Inv(s) && it in s.cursors
    ensures s.cursors[it].At? ==> s.cursors[it].index < |s.slots|
  {
  }
}
