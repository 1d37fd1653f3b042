/** `ObserverList` and its iterators as objects that point at each other, proved against the operations on states. */
module ObserverList {
  import opened Bytes
  import opened ObserverSlots

  class List {
    var observers: Slots
    var liveIterators: seq<Iter>
    const policy: Policy

    /** The abstract state; iterators are named by themselves. */
    ghost function View(): State<Iter>
      reads this, liveIterators
    {
      State(observers, liveIterators, map it | it in liveIterators :: Cursor(it.index, it.limit), policy)
    }

    /** Every linked iterator points back at the list, and the abstract state satisfies its invariant. */
    ghost predicate Valid()
      reads this, liveIterators
    {
      (forall it :: it in liveIterators ==> it.list == this) && Inv(View())
    }

    constructor (policy: Policy)
      ensures Valid() && View() == State([], [], map[], policy)
    {
      observers, liveIterators := [], [];
      this.policy := policy;
    }

    method HasObserver(o: Observer) returns (has: bool)
      requires Valid()
      ensures has <==> o in Contents(observers)
    {
      ContentsMembers(observers, o);
      var i := FindObserver(o);
      has := i < |observers|;
    }

    method FindObserver(o: Observer) returns (i: nat)
      ensures i == IndexOf(observers, o)
    {
      i := 0;
      while i < |observers| && observers[i] != Some(o)
        invariant 0 <= i <= |observers|
        invariant forall j :: 0 <= j < i ==> observers[j] != Some(o)
      {
        i := i + 1;
      }
    }

    method AddObserver(o: Observer)
      requires Valid()
      modifies this`observers
      ensures Valid() && View() == Add(old(View()), o)
      ensures Contents(observers) == if o in old(Contents(observers)) then old(Contents(observers))
                                     else old(Contents(observers)) + [o]
    {
      hide Inv, IndexOf, Contents, Without;
      ghost var before := View();
      StepRefines(before, AddOp(o));
      var i := FindObserver(o);
      if i == |observers| {
        observers := observers + [Some(o)];
      }
      assert View().cursors == before.cursors;
      assert View() == Add(before, o);
    }

    method RemoveObserver(o: Observer)
      requires Valid()
      modifies this`observers
      ensures Valid() && View() == Remove(old(View()), o)
      ensures Contents(observers) == Without(old(Contents(observers)), o)
    {
      hide Inv, IndexOf, Contents, Without;
      ghost var before := View();
      StepRefines(before, RemoveOp(o));
      var i := FindObserver(o);
      if i < |observers| {
        if liveIterators == [] {
          observers := observers[..i] + observers[i + 1..];
        } else {
          observers := observers[i := None];
        }
      }
      assert View().cursors == before.cursors;
      assert View() == Remove(before, o);
    }

    method Clear()
      requires Valid()
      modifies this`observers
      ensures Valid() && View() == ObserverSlots.Clear(old(View()))
      ensures Contents(observers) == []
    {
      hide Inv, Contents;
      ghost var before := View();
      StepRefines(before, ClearOp);
      if liveIterators == [] {
        observers := [];
      } else {
        var i := 0;
        while i < |observers|
          invariant 0 <= i <= |observers| == |before.slots|
          invariant forall j :: 0 <= j < i ==> observers[j].None?
        {
          observers := observers[i := None];
          i := i + 1;
        }
        assert observers == seq(|before.slots|, _ => None);
      }
      assert View().cursors == before.cursors;
      assert View() == ObserverSlots.Clear(before);
    }

    /** `Compact`, called by the last iterator only. */
    method CompactList()
      modifies this`observers
      ensures observers == Compact(old(observers))
    {
      var kept: Slots := [];
      var i := 0;
      while i < |observers|
        invariant 0 <= i <= |observers| && kept == Compact(observers[..i])
      {
        assert observers[..i + 1][..i] == observers[..i];
        if observers[i].Some? {
          kept := kept + [observers[i]];
        }
        i := i + 1;
      }
      assert observers[..i] == observers;
      observers := kept;
    }

    /** `begin()`: the empty list hands out a detached iterator. */
    method BeginPass() returns (it: Iter)
      requires Valid()
      modifies this`liveIterators
      ensures Valid() && fresh(it)
      ensures if observers == [] then it.list == null && View() == old(View())
              else it.list == this && View() == Begin(old(View()), it)
    {
      it := new Iter.Detached();
      if observers != [] {
        it.StartOn(this);
      }
    }

    /** The destructor: every iterator still alive is cut off and is at its end; with `checkEmpty` the list compacts. */
    method Destroy(checkEmpty: bool)
      requires Valid()
      modifies this, liveIterators
      ensures liveIterators == [] && forall it :: it in old(liveIterators) ==> it.list == null
      ensures observers == if checkEmpty then Compact(old(observers)) else old(observers)
      ensures Contents(observers) == old(Contents(observers))
    {
      CompactKeepsContents(observers);
      ghost var all := liveIterators;
      while liveIterators != []
        invariant observers == old(observers)
        invariant forall it :: it in liveIterators ==> it in all
        invariant forall it :: it in all && it !in liveIterators ==> it.list == null
        decreases |liveIterators|
      {
        var head := liveIterators[0];
        assert head in liveIterators;
        head.list := null;
        liveIterators := liveIterators[1..];
      }
      if checkEmpty {
        CompactList();
      }
    }
  }

  class Iter {
    var list: List?
    var index: nat
    var limit: Limit

    /** An attached iterator is linked into a valid list. */
    ghost predicate Linked()
      reads this, list, if list == null then {} else set it | it in list.liveIterators
    {
      list != null ==> list.Valid() && this in list.liveIterators
    }

    constructor Detached()
      ensures list == null
    {
      list, index, limit := null, 0, UpTo(0);
    }

    /** `WeakLinkNode::SetList` on a detached iterator, together with the position it starts from. */
    method Link(l: List, index: nat, limit: Limit)
      requires list == null && l.Valid() && index <= End(limit, |l.observers|)
      modifies this, l`liveIterators
      ensures list == l && l.Valid() && l.View() == Attach(old(l.View()), this, Cursor(index, limit))
    {
      hide Inv;
      ghost var before := l.View();
      assert this !in l.liveIterators;
      AttachKeepsInv(before, this, Cursor(index, limit));
      list := l;
      this.index, this.limit := index, limit;
      l.liveIterators := l.liveIterators + [this];
      assert l.View() == Attach(before, this, Cursor(index, limit));
    }

    /** The body of `Iter(list)`: link, choose the limit by the policy, and settle on the first observer. */
    method StartOn(l: List)
      requires list == null && l.Valid()
      modifies this, l`liveIterators
      ensures list == l && l.Valid() && l.View() == Begin(old(l.View()), this)
    {
      hide Inv, Next, Contents;
      Link(l, 0, if l.policy.All? then Unlimited else UpTo(|l.observers|));
      Settle(0);
    }

    constructor CopyOf(other: Iter)
      requires other.Linked()
      modifies other.list
      ensures list == other.list == old(other.list)
      ensures list != null ==> list.Valid() && list.View() == Copy(old(other.list.View()), this, other)
    {
      list, index, limit := null, other.index, other.limit;
      new;
      if other.list != null {
        PositionInBounds(other);
        Link(other.list, other.index, other.limit);
      }
    }

    /** Skip entries marked for removal. */
    method EnsureValidIndex()
      requires list != null && index <= End(limit, |list.observers|)
      modifies this`index
      ensures index == Next(list.observers, old(index), End(limit, |list.observers|))
    {
      var maxIndex := End(limit, |list.observers|);
      while index < maxIndex && list.observers[index].None?
        invariant old(index) <= index <= maxIndex
        invariant Next(list.observers, old(index), maxIndex) == Next(list.observers, index, maxIndex)
      {
        index := index + 1;
      }
    }

    /** Move to the first entry from `from` on that is not marked for removal. */
    method Settle(from: nat)
      requires list != null && Linked() && from <= End(limit, |list.observers|)
      modifies this`index
      ensures list.Valid()
      ensures var before := old(list.View());
              var i := Next(before.slots, from, End(limit, |before.slots|));
              this in before.cursors &&
              list.View() == before.(cursors := before.cursors[this := before.cursors[this].(index := i)])
    {
      hide Inv;
      ghost var before := list.View();
      PositionInBounds(this);
      index := from;
      EnsureValidIndex();
      MoveKeepsInv(before, this, index);
      assert list.View().cursors == before.cursors[this := Cursor(index, limit)];
    }

    /** `is_end()`. */
    method IsEnd() returns (end: bool)
      requires Linked()
      ensures end <==> list == null || AtEnd(list.View(), this)
    {
      end := list == null || index == End(limit, |list.observers|);
    }

    /** `operator++` on an iterator that is not at its end. */
    method Increment()
      requires Linked() && (list != null ==> !AtEnd(list.View(), this))
      modifies this`index
      ensures list != null ==> list.Valid() && list.View() == Advance(old(list.View()), this)
    {
      hide Inv;
      if list != null {
        ghost var before := list.View();
        PositionInBounds(this);
        Settle(index + 1);
        assert list.View() == Advance(before, this);
      }
    }

    /** The destructor body and `WeakLinkNode::Invalidate`. */
    method Release()
      requires Linked()
      modifies this, list
      ensures list == null && index == old(index) && limit == old(limit)
      ensures old(list) != null ==> old(list).Valid() && old(list).View() == Detach(old(list.View()), this)
    {
      hide Inv, Compact, Unlink, Contents;
      if list != null {
        var l := list;
        ghost var before := l.View();
        DetachKeepsInv(before, this);
        if |l.liveIterators| == 1 {
          l.CompactList();
        }
        list := null;
        l.liveIterators := Unlink(l.liveIterators, this);
        assert l.View().cursors == before.cursors - {this};
        assert l.View() == Detach(before, this);
      }
    }

    /** `operator=`; the two iterators may belong to different lists, or to none. */
    method AssignFrom(other: Iter)
      requires Linked() && other.Linked()
      modifies this, list, other.list
      ensures list == old(other.list)
      ensures old(list) != null ==>
                old(list).Valid() && old(list).View() == Assign(old(list.View()), this, other)
      ensures old(other.list) != null && old(other.list) != old(list) ==>
                list.Valid() && list.View() == Copy(old(other.list.View()), this, other)
    {
      hide Inv, Unlink, Compact, Contents;
      if other == this {
        return;
      }
      if other.list != null {
        PositionInBounds(other);
      }
      var target := other.list;
      if target != null && target == list {
        OthersStay(target.View(), this, other);
      }
      Release();
      if target != null {
        Link(target, other.index, other.limit);
      }
    }
  }

  /** A linked iterator is a key of its list's abstract state, at a position within bounds. */
  lemma PositionInBounds(it: Iter)
    requires it.list != null && it.Linked()
    ensures it in it.list.View().cursors && it.list.View().cursors[it] == Cursor(it.index, it.limit)
    ensures it.index <= End(it.limit, |it.list.observers|)
  {
  }

  lemma MoveKeepsInv(s: State<Iter>, it: Iter, i: nat)
    requires Inv(s) && it in s.cursors && i <= End(s.cursors[it].limit, |s.slots|)
    ensures Inv(s.(cursors := s.cursors[it := s.cursors[it].(index := i)]))
  {
  }
}
