/** `scoped_refptr` and `RefCountedBase` as objects, proved against the operations on heaps. */
module ScopedRefptr {
  import opened Bytes
  import opened RefCounts

  /** `RefCountedBase`; `deleted` stands for the object having run `delete this`. */
  class Counted {
    var refCount: int
    var deleted: bool

    constructor ()
      ensures refCount == 0 && !deleted
    {
      refCount, deleted := 0, false;
    }

    method IncRef()
      requires !deleted
      modifies this`refCount
      ensures refCount == old(refCount) + 1
    {
      refCount := refCount + 1;
    }

    method DecRef() returns (last: bool)
      requires !deleted
      modifies this
      ensures refCount == old(refCount) - 1 && (last <==> refCount == 0) && deleted == last
    {
      refCount := refCount - 1;
      last := refCount == 0;
      if last {
        deleted := true;
      }
    }
  }

  /** All handles and counted objects there are, and the references handed out. */
  class World {
    ghost var handles: set<Handle>
    ghost var objects: set<Counted>
    ghost var owed: map<Counted, nat>

    ghost function Pointers(): map<Handle, Option<Counted>>
      reads this, handles
    {
      map h | h in handles :: h.Pointer()
    }

    ghost function Counts(): map<Counted, int>
      reads this, objects
    {
      map o | o in objects :: o.refCount
    }

    ghost function Dead(): set<Counted>
      reads this, objects
    {
      set o | o in objects && o.deleted
    }

    ghost function View(): Heap<Handle, Counted>
      reads this, handles, objects
    {
      Heap(Pointers(), Counts(), Dead(), owed)
    }

    ghost predicate Valid()
      reads this, handles, objects
    {
      Inv(View())
    }

    constructor ()
      ensures Valid() && Empty(View())
    {
      handles, objects, owed := {}, {}, map[];
    }

    /** `new` of a counted object. */
    method Create() returns (o: Counted)
      requires Valid()
      modifies this`objects
      ensures Valid() && fresh(o) && objects == old(objects) + {o} && o !in old(View()).count && !o.deleted
      ensures View() == New(old(View()), o)
    {
      hide Inv, Conserves, Total;
      ghost var before := View();
      o := new Counted();
      NewConserves(before, o);
      ConservesInv(before, New(before, o));
      objects := objects + {o};
      assert Counts() == before.count[o := 0];
      assert Dead() == before.dead;
      assert View() == New(before, o);
    }

    /** `Release` by the owner of a reference that was handed out. */
    method GiveBackReference(o: Counted)
      requires Valid() && Owed(View(), o) > 0
      modifies o, this`owed
      ensures Valid() && Alive(old(View()), o) && View() == GiveBack(old(View()), o)
    {
      hide Inv, Conserves, Total;
      ghost var before := View();
      GiveBackConserves(before, o);
      ConservesInv(before, GiveBack(before, o));
      Decrement(o);
      owed := owed[o := Owed(before, o) - 1];
      assert View() == GiveBack(before, o);
    }

    /** `AddRef` on an object, seen from here. */
    method Increment(o: Counted)
      requires o in objects && !o.deleted
      modifies o
      ensures Counts() == old(Counts())[o := old(Counts())[o] + 1] && Dead() == old(Dead())
      ensures !o.deleted && Pointers() == old(Pointers())
    {
      o.IncRef();
    }

    /** `Release` on an object, seen from here. */
    method Decrement(o: Counted)
      requires o in objects && !o.deleted
      modifies o
      ensures var n := old(Counts())[o] - 1;
              Counts() == old(Counts())[o := n] && Dead() == if n == 0 then old(Dead()) + {o} else old(Dead())
      ensures Pointers() == old(Pointers())
    {
      var last := o.DecRef();
      assert o.deleted == last;
    }
  }

  class Handle {
    var ptr: Counted?

    function Pointer(): Option<Counted>
      reads this
    {
      if ptr == null then None else Some(ptr)
    }

    /** Write the pointer of a known handle. */
    method Point(w: World, p: Counted?)
      requires this in w.handles
      modifies this
      ensures ptr == p && w.Pointers() == old(w.Pointers())[this := Raw(p)]
      ensures w.Counts() == old(w.Counts()) && w.Dead() == old(w.Dead())
    {
      ptr := p;
    }

    /** Make a new handle known. */
    ghost method Register(w: World)
      modifies w`handles
      ensures w.handles == old(w.handles) + {this} && w.Pointers() == old(w.Pointers())[this := Pointer()]
      ensures w.Counts() == old(w.Counts()) && w.Dead() == old(w.Dead())
    {
      w.handles := w.handles + {this};
    }

    /** `scoped_refptr(p)`, and with `p` null the empty handle. */
    constructor (w: World, p: Counted?)
      requires w.Valid() && (p != null ==> p in w.objects && !p.deleted)
      modifies w`handles, p
      ensures w.Valid() && this !in old(w.handles) && w.handles == old(w.handles) + {this} && Pointer() == Raw(p)
      ensures w.View() == Construct(old(w.View()), this, Raw(p))
    {
      ptr := p;
      new;
      hide Inv, Conserves, Total;
      ghost var before := w.View();
      FreshHandle(w, this);
      ConstructConserves(before, this, Raw(p));
      assert Inv(Construct(before, this, Raw(p))) by { ConservesInv(before, Construct(before, this, Raw(p))); }
      if p != null {
        w.Increment(p);
      }
      Register(w);
      assert w.View() == Construct(before, this, Raw(p));
    }

    /** The destructor. */
    method Destruct(w: World)
      requires w.Valid() && this in w.handles
      modifies w`handles, ptr
      ensures w.Valid() && w.handles == old(w.handles) - {this}
      ensures HeldAlive(old(w.View())) && w.View() == Destroy(old(w.View()), this)
    {
      hide Inv, Conserves, Total;
      ghost var before := w.View();
      InvKeepsAlive(before);
      DestroyConserves(before, this);
      ConservesInv(before, Destroy(before, this));
      if ptr != null {
        PointsInside(w, this);
        w.Decrement(ptr);
      }
      w.handles := w.handles - {this};
      assert w.Pointers() == before.ptr - {this};
      assert w.Counts() == Destroy(before, this).count;
      assert w.Dead() == Destroy(before, this).dead;
    }

    /** `release()`. */
    method ReleasePointer(w: World) returns (p: Counted?)
      requires w.Valid() && this in w.handles
      modifies this, w`owed
      ensures w.Valid() && ptr == null && p == old(ptr) && w.View() == HandOut(old(w.View()), this)
    {
      hide Inv, Conserves, Total;
      ghost var before := w.View();
      HandOutConserves(before, this);
      ConservesInv(before, HandOut(before, this));
      p := ptr;
      Point(w, null);
      if p != null {
        w.owed := w.owed[p := Owed(before, p) + 1];
      }
      assert w.View() == HandOut(before, this);
    }

    /** The two count changes of an assignment, in the order of the source. */
    method Exchange(w: World, p: Counted?)
      requires p != null ==> p in w.objects && !p.deleted
      requires ptr != null ==> ptr in w.objects && !ptr.deleted
      modifies p, ptr
      ensures w.View() == ReleaseIf(AddRefIf(old(w.View()), Raw(p)), old(Pointer()))
    {
      if p != null {
        w.Increment(p);
      }
      if ptr != null {
        w.Decrement(ptr);
      }
    }

    /** `operator=(T*)`. */
    method AssignRaw(w: World, p: Counted?)
      requires w.Valid() && this in w.handles && (p != null ==> p in w.objects && !p.deleted)
      modifies this, p, ptr
      ensures w.Valid() && ptr == p
      ensures HeldAlive(old(w.View())) && w.View() == Assign(old(w.View()), this, Raw(p))
    {
      hide Inv, Conserves, Total;
      ghost var before := w.View();
      InvKeepsAlive(before);
      AssignConserves(before, this, Raw(p));
      ConservesInv(before, Assign(before, this, Raw(p)));
      if ptr != null {
        PointsInside(w, this);
      }
      Exchange(w, p);
      Point(w, p);
    }

    /** `operator=(const scoped_refptr&)`, self-assignment included. */
    method AssignCopy(w: World, r: Handle)
      requires w.Valid() && this in w.handles && r in w.handles
      modifies this, r.ptr, ptr
      ensures w.Valid() && HeldAlive(old(w.View())) && w.View() == Assign(old(w.View()), this, old(w.View()).ptr[r])
    {
      hide Inv;
      if r.ptr != null {
        PointsInside(w, r);
      }
      AssignRaw(w, r.ptr);
    }

    /** `swap`. */
    method SwapWith(w: World, r: Handle)
      requires w.Valid() && this in w.handles && r in w.handles
      modifies this, r
      ensures w.Valid() && w.View() == Swap(old(w.View()), this, r)
    {
      hide Inv, Conserves, Total;
      ghost var before := w.View();
      SwapConserves(before, this, r);
      ConservesInv(before, Swap(before, this, r));
      var p := ptr;
      Point(w, r.ptr);
      r.Point(w, p);
    }

    /** `scoped_refptr(scoped_refptr&&)`. */
    constructor Moved(w: World, r: Handle)
      requires w.Valid() && r in w.handles
      modifies w`handles, r
      ensures w.Valid() && this !in old(w.handles) && w.handles == old(w.handles) + {this}
      ensures w.View() == Move(old(w.View()), this, r)
    {
      ptr := r.ptr;
      new;
      hide Inv, Conserves, Total;
      ghost var before := w.View();
      FreshHandle(w, this);
      MoveConserves(before, this, r);
      ConservesInv(before, Move(before, this, r));
      r.Point(w, null);
      Register(w);
    }

    /** `operator=(scoped_refptr&&)`: move into a temporary, swap, and let the temporary die. */
    method AssignMoved(w: World, r: Handle) returns (ghost temporary: Handle)
      requires w.Valid() && this in w.handles && r in w.handles
      modifies this, r, w`handles, ptr
      ensures w.Valid() && w.handles == old(w.handles) && temporary !in old(w.handles)
      ensures HeldAlive(old(w.View())) && w.View() == AssignMove(old(w.View()), this, r, temporary)
    {
      hide Inv, Conserves, Total;
      InvKeepsAlive(w.View());
      ghost var held := ptr;
      var moved := new Handle.Moved(w, r);
      moved.SwapWith(w, this);
      moved.Destruct(w);
      temporary := moved;
    }
  }

  /** A handle points at a known object that is alive. */
  lemma PointsInside(w: World, h: Handle)
    requires w.Valid() && h in w.handles && h.ptr != null
    ensures h.ptr in w.objects && !h.ptr.deleted
  {
    hide Total, Inv;
    var s := w.View();
    assert h in s.ptr && s.ptr[h] == Some(h.ptr);
    HeldIsAlive(s, h);
  }

  function Raw(p: Counted?): Option<Counted> {
    if p == null then None else Some(p)
  }

  lemma FreshHandle(w: World, h: Handle)
    ensures h !in w.handles ==> h !in w.View().ptr
  {
  }
}
