/**
 * Reference counting: handles that own references to counted objects.  Every operation of a handle is the
 * sequence of `AddRef`, `Release` and pointer writes that the source performs.  `H` names handles, `O` objects.
 */
module RefCounts {
  import opened Bytes

  /** `owed` counts the references handed out by `release` and not yet given back. */
  datatype Heap<!H, !O> = Heap(ptr: map<H, Option<O>>, count: map<O, int>, dead: set<O>, owed: map<O, nat>)

  // ----- the counted object; both calls are only allowed on an object that is alive -----

  predicate Alive<H, O(==)>(s: Heap<H, O>, o: O) {
    o in s.count && o !in s.dead
  }

  function AddRef<H, O(==)>(s: Heap<H, O>, o: O): Heap<H, O>
    requires Alive(s, o)
  {
    s.(count := s.count[o := s.count[o] + 1])
  }

  /** `Release`: the object deletes itself when its count drops to zero. */
  function Release<H, O(==)>(s: Heap<H, O>, o: O): Heap<H, O>
    requires Alive(s, o)
  {
    var n := s.count[o] - 1;
    s.(count := s.count[o := n], dead := if n == 0 then s.dead + {o} else s.dead)
  }

  function AddRefIf<H, O(==)>(s: Heap<H, O>, p: Option<O>): Heap<H, O>
    requires p.Some? ==> Alive(s, p.value)
  {
    if p.Some? then AddRef(s, p.value) else s
  }

  function ReleaseIf<H, O(==)>(s: Heap<H, O>, p: Option<O>): Heap<H, O>
    requires p.Some? ==> Alive(s, p.value)
  {
    if p.Some? then Release(s, p.value) else s
  }

  // ----- the account -----

  function Handles<H, O(==)>(s: Heap<H, O>, o: O): set<H> {
    set h | h in s.ptr && s.ptr[h] == Some(o)
  }

  function Owed<H, O>(s: Heap<H, O>, o: O): nat {
    if o in s.owed then s.owed[o] else 0
  }

  /** The references to `o` that somebody owns. */
  function Total<H, O(==)>(s: Heap<H, O>, o: O): nat {
    |Handles(s, o)| + Owed(s, o)
  }

  ghost predicate Inv<H, O>(s: Heap<H, O>) {
    && (forall o :: o in s.count && o !in s.dead ==> s.count[o] == Total(s, o))
    && (forall o :: o in s.dead ==> o in s.count && Total(s, o) == 0)
    && (forall h :: h in s.ptr && s.ptr[h].Some? ==> s.ptr[h].value in s.count)
    && (forall o :: o in s.owed ==> o in s.count)
  }

  /** Before anything is constructed. */
  ghost predicate Empty<H, O>(s: Heap<H, O>) {
    s.ptr == map[] && s.count == map[] && s.dead == {} && s.owed == map[]
  }

  // ----- operations of handles -----

  /** A new object, not yet referenced. */
  function New<H, O(==)>(s: Heap<H, O>, o: O): Heap<H, O> {
    s.(count := s.count[o := 0])
  }

  /** `scoped_refptr(p)`. */
  function Construct<H, O(==)>(s: Heap<H, O>, h: H, p: Option<O>): Heap<H, O>
    requires p.Some? ==> Alive(s, p.value)
  {
    AddRefIf(s.(ptr := s.ptr[h := p]), p)
  }

  /** `release()`: the reference passes to the caller. */
  function HandOut<H, O>(s: Heap<H, O>, h: H): Heap<H, O>
    requires h in s.ptr
  {
    var t := s.(ptr := s.ptr[h := None]);
    if s.ptr[h].Some? then t.(owed := s.owed[s.ptr[h].value := Owed(s, s.ptr[h].value) + 1]) else t
  }

  /** `scoped_refptr(std::move(from))`: the new handle takes over what `from.release()` hands out. */
  function Move<H, O>(s: Heap<H, O>, h: H, from: H): Heap<H, O>
    requires from in s.ptr && h !in s.ptr
  {
    var p := s.ptr[from];
    s.(ptr := s.ptr[from := None][h := p])
  }

  function Destroy<H, O(==)>(s: Heap<H, O>, h: H): Heap<H, O>
    requires h in s.ptr && (s.ptr[h].Some? ==> Alive(s, s.ptr[h].value))
  {
    var t := ReleaseIf(s, s.ptr[h]);
    t.(ptr := t.ptr - {h})
  }

  /** `h = p`: add the new reference first, so that assigning the pointer already held works. */
  function Assign<H, O(==)>(s: Heap<H, O>, h: H, p: Option<O>): Heap<H, O>
    requires h in s.ptr && (p.Some? ==> Alive(s, p.value)) && (s.ptr[h].Some? ==> Alive(s, s.ptr[h].value))
  {
    var t := ReleaseIf(AddRefIf(s, p), s.ptr[h]);
    t.(ptr := t.ptr[h := p])
  }

  function Swap<H, O>(s: Heap<H, O>, h: H, k: H): Heap<H, O>
    requires h in s.ptr && k in s.ptr
  {
    s.(ptr := s.ptr[h := s.ptr[k]][k := s.ptr[h]])
  }

  /** `h = std::move(from)`: a temporary takes `from`'s pointer, is swapped with `h`, and dies. */
  function AssignMove<H, O(==)>(s: Heap<H, O>, h: H, from: H, temporary: H): Heap<H, O>
    requires h in s.ptr && from in s.ptr && temporary !in s.ptr
    requires s.ptr[h].Some? ==> Alive(s, s.ptr[h].value)
    requires s.ptr[from].Some? ==> Alive(s, s.ptr[from].value)
  {
    Destroy(Swap(Move(s, temporary, from), temporary, h), temporary)
  }

  // ----- how the account moves -----

  lemma HandlesAfter<H, O>(s: Heap<H, O>, h: H, p: Option<O>, o: O)
    ensures var t := s.(ptr := s.ptr[h := p]);
            Handles(t, o) == if p == Some(o) then Handles(s, o) + {h} else Handles(s, o) - {h}
  {
  }

  /** Replacing what `h` points at moves one reference. */
  lemma TotalAfter<H, O>(s: Heap<H, O>, h: H, p: Option<O>, o: O)
    ensures var t := s.(ptr := s.ptr[h := p]);
            Total(t, o) == Total(s, o) - (if h in s.ptr && s.ptr[h] == Some(o) then 1 else 0) +
                           (if p == Some(o) then 1 else 0)
  {
    HandlesAfter(s, h, p, o);
  }

  lemma TotalWithout<H, O>(s: Heap<H, O>, h: H, o: O)
    ensures var t := s.(ptr := s.ptr - {h});
            Total(t, o) == Total(s, o) - (if h in s.ptr && s.ptr[h] == Some(o) then 1 else 0)
  {
    var t := s.(ptr := s.ptr - {h});
    assert Handles(t, o) == Handles(s, o) - {h};
  }

  lemma TotalSame<H, O>(s: Heap<H, O>, t: Heap<H, O>, o: O)
    ensures t.ptr == s.ptr && t.owed == s.owed ==> Total(t, o) == Total(s, o)
  {
  }

  /** An object somebody refers to is alive. */
  lemma HeldIsAlive<H, O>(s: Heap<H, O>, h: H)
    requires Inv(s) && h in s.ptr && s.ptr[h].Some?
    ensures Alive(s, s.ptr[h].value) && Total(s, s.ptr[h].value) > 0
  {
    assert h in Handles(s, s.ptr[h].value);
  }

  /**
   * The promises of a step: the account balances again, an object dies in it exactly when the last reference to
   * it goes away in it, and a new object is alive.
   */
  ghost predicate Conserves<H, O>(s: Heap<H, O>, t: Heap<H, O>) {
    && Inv(t) && s.count.Keys <= t.count.Keys && s.dead <= t.dead <= s.count.Keys
    && forall o :: o in s.count && o !in s.dead ==> (o in t.dead <==> Total(s, o) > 0 && Total(t, o) == 0)
  }

  lemma ConstructConserves<H, O>(s: Heap<H, O>, h: H, p: Option<O>)
    requires Inv(s) && h !in s.ptr && (p.Some? ==> Alive(s, p.value))
    ensures Conserves(s, Construct(s, h, p))
  {
    hide Total;
    var u := s.(ptr := s.ptr[h := p]);
    var t := Construct(s, h, p);
    forall o | o in s.count ensures Total(t, o) == Total(s, o) + if p == Some(o) then 1 else 0 {
      TotalAfter(s, h, p, o);
      TotalSame(u, t, o);
    }
  }

  lemma MoveConserves<H, O>(s: Heap<H, O>, h: H, from: H)
    requires Inv(s) && from in s.ptr && h !in s.ptr
    ensures Conserves(s, Move(s, h, from)) && Move(s, h, from).dead == s.dead
    ensures forall o :: o in s.count ==> Total(Move(s, h, from), o) == Total(s, o)
  {
    hide Total;
    var p := s.ptr[from];
    var u := s.(ptr := s.ptr[from := None]);
    forall o | o in s.count ensures Total(Move(s, h, from), o) == Total(s, o) {
      TotalAfter(s, from, None, o);
      TotalAfter(u, h, p, o);
    }
  }

  lemma SwapConserves<H, O>(s: Heap<H, O>, h: H, k: H)
    requires Inv(s) && h in s.ptr && k in s.ptr
    ensures Conserves(s, Swap(s, h, k)) && Swap(s, h, k).dead == s.dead
    ensures forall o :: o in s.count ==> Total(Swap(s, h, k), o) == Total(s, o)
  {
    hide Total;
    var u := s.(ptr := s.ptr[h := s.ptr[k]]);
    forall o | o in s.count ensures Total(Swap(s, h, k), o) == Total(s, o) {
      TotalAfter(s, h, s.ptr[k], o);
      TotalAfter(u, k, s.ptr[h], o);
    }
  }

  lemma DestroyConserves<H, O>(s: Heap<H, O>, h: H)
    requires Inv(s) && h in s.ptr
    ensures s.ptr[h].Some? ==> Alive(s, s.ptr[h].value)
    ensures Conserves(s, Destroy(s, h))
    ensures forall o :: o in s.count ==> Total(Destroy(s, h), o) == Total(s, o) - if s.ptr[h] == Some(o) then 1 else 0
  {
    hide Total;
    if s.ptr[h].Some? {
      HeldIsAlive(s, h);
    }
    var u := ReleaseIf(s, s.ptr[h]);
    var t := Destroy(s, h);
    forall o | o in s.count ensures Total(t, o) == Total(s, o) - if s.ptr[h] == Some(o) then 1 else 0 {
      TotalSame(s, u, o);
      TotalWithout(u, h, o);
    }
  }

  lemma AssignConserves<H, O>(s: Heap<H, O>, h: H, p: Option<O>)
    requires Inv(s) && h in s.ptr && (p.Some? ==> Alive(s, p.value))
    ensures s.ptr[h].Some? ==> Alive(s, s.ptr[h].value)
    ensures Conserves(s, Assign(s, h, p))
  {
    hide Total;
    if s.ptr[h].Some? {
      HeldIsAlive(s, h);
    }
    var u := ReleaseIf(AddRefIf(s, p), s.ptr[h]);
    var t := Assign(s, h, p);
    forall o | o in s.count
      ensures Total(t, o) == Total(s, o) - (if s.ptr[h] == Some(o) then 1 else 0) + (if p == Some(o) then 1 else 0)
    {
      TotalSame(s, u, o);
      TotalAfter(u, h, p, o);
    }
  }

  /** Self-assignment changes nothing at all. */
  lemma SelfAssign<H, O>(s: Heap<H, O>, h: H)
    requires Inv(s) && h in s.ptr
    ensures s.ptr[h].Some? ==> Alive(s, s.ptr[h].value)
    ensures Assign(s, h, s.ptr[h]) == s
  {
    hide Total;
    if s.ptr[h].Some? {
      HeldIsAlive(s, h);
      var o := s.ptr[h].value;
      assert s.count[o := s.count[o] + 1][o := s.count[o]] == s.count;
    }
    assert s.ptr[h := s.ptr[h]] == s.ptr;
  }

  lemma ConservesInv<H, O>(s: Heap<H, O>, t: Heap<H, O>)
    ensures Conserves(s, t) ==> Inv(t)
  {
  }

  /** A step that moves references around without changing any total may come first. */
  lemma ConservesVia<H, O>(s: Heap<H, O>, b: Heap<H, O>, t: Heap<H, O>)
    requires Conserves(b, t) && b.count == s.count && b.dead == s.dead
    requires forall o :: o in s.count ==> Total(b, o) == Total(s, o)
    ensures Conserves(s, t)
  {
    hide Total, Inv;
  }

  lemma AssignMoveConserves<H, O>(s: Heap<H, O>, h: H, from: H, temporary: H)
    requires Inv(s) && h in s.ptr && from in s.ptr && temporary !in s.ptr
    ensures s.ptr[h].Some? ==> Alive(s, s.ptr[h].value)
    ensures s.ptr[from].Some? ==> Alive(s, s.ptr[from].value)
    ensures Conserves(s, AssignMove(s, h, from, temporary))
    ensures h == from ==> AssignMove(s, h, from, temporary) == s
    ensures h != from ==> AssignMove(s, h, from, temporary).ptr == s.ptr[from := None][h := s.ptr[from]]
  {
    hide Total, Inv, Conserves;
    if s.ptr[h].Some? {
      HeldIsAlive(s, h);
    }
    if s.ptr[from].Some? {
      HeldIsAlive(s, from);
    }
    var a := Move(s, temporary, from);
    MoveConserves(s, temporary, from);
    ConservesInv(s, a);
    var b := Swap(a, temporary, h);
    SwapConserves(a, temporary, h);
    ConservesInv(a, b);
    DestroyConserves(b, temporary);
    ConservesVia(s, b, Destroy(b, temporary));
    assert b.ptr - {temporary} == s.ptr[from := None][h := s.ptr[from]];
    if h == from {
      assert s.ptr[from := None][h := s.ptr[from]] == s.ptr;
    }
  }

  lemma HandOutConserves<H, O>(s: Heap<H, O>, h: H)
    requires Inv(s) && h in s.ptr
    ensures Conserves(s, HandOut(s, h))
  {
    var t := HandOut(s, h);
    forall o | o in s.count ensures Total(t, o) == Total(s, o) {
      TotalAfter(s, h, None, o);
      assert Handles(t, o) == Handles(s.(ptr := s.ptr[h := None]), o);
    }
  }

  /** The owner of a handed-out reference gives it back with `Release()`. */
  function GiveBack<H, O(==)>(s: Heap<H, O>, o: O): Heap<H, O>
    requires Alive(s, o) && Owed(s, o) > 0
  {
    Release(s, o).(owed := s.owed[o := Owed(s, o) - 1])
  }

  lemma GiveBackConserves<H, O>(s: Heap<H, O>, o: O)
    requires Inv(s) && Owed(s, o) > 0
    ensures Alive(s, o) && Conserves(s, GiveBack(s, o))
  {
    assert o in s.owed && o in s.count;
    var t := GiveBack(s, o);
    forall x | x in s.count ensures Handles(t, x) == Handles(s, x) {
    }
  }

  // ----- runs -----

  datatype Op<!H, !O> =
    | NewObject(o: O)
    | ConstructOp(h: H, p: Option<O>)
    | CopyOp(h: H, from: H)
    | MoveOp(h: H, from: H)
    | AssignOp(h: H, p: Option<O>)
    | AssignCopyOp(h: H, from: H)
    | AssignMoveOp(h: H, from: H, temporary: H)
    | SwapOp(h: H, k: H)
    | HandOutOp(h: H)
    | GiveBackOp(o: O)
    | DestroyOp(h: H)

  /** New things are new, handles exist, and raw pointers point at objects that are alive. */
  predicate Enabled<H(==), O(==)>(s: Heap<H, O>, op: Op<H, O>) {
    match op
    case NewObject(o) => o !in s.count
    case ConstructOp(h, p) => h !in s.ptr && (p.Some? ==> Alive(s, p.value))
    case CopyOp(h, from) => h !in s.ptr && from in s.ptr
    case MoveOp(h, from) => h !in s.ptr && from in s.ptr
    case AssignOp(h, p) => h in s.ptr && (p.Some? ==> Alive(s, p.value))
    case AssignCopyOp(h, from) => h in s.ptr && from in s.ptr
    case AssignMoveOp(h, from, temporary) => h in s.ptr && from in s.ptr && temporary !in s.ptr
    case SwapOp(h, k) => h in s.ptr && k in s.ptr
    case HandOutOp(h) => h in s.ptr
    case GiveBackOp(o) => Owed(s, o) > 0
    case DestroyOp(h) => h in s.ptr
  }

  ghost predicate HeldAlive<H, O>(s: Heap<H, O>) {
    && (forall h :: h in s.ptr && s.ptr[h].Some? ==> Alive(s, s.ptr[h].value))
    && (forall o :: o in s.owed && s.owed[o] > 0 ==> Alive(s, o))
  }

  /** What the invariant guarantees every operation: no pointer in use points at a deleted object. */
  lemma InvKeepsAlive<H, O>(s: Heap<H, O>)
    requires Inv(s)
    ensures HeldAlive(s)
  {
    forall h | h in s.ptr && s.ptr[h].Some? ensures Alive(s, s.ptr[h].value) {
      HeldIsAlive(s, h);
    }
  }

  ghost function Step<H, O>(s: Heap<H, O>, op: Op<H, O>): Heap<H, O>
    requires Enabled(s, op) && HeldAlive(s)
  {
    match op
    case NewObject(o) => New(s, o)
    case ConstructOp(h, p) => Construct(s, h, p)
    case CopyOp(h, from) => Construct(s, h, s.ptr[from])
    case MoveOp(h, from) => Move(s, h, from)
    case AssignOp(h, p) => Assign(s, h, p)
    case AssignCopyOp(h, from) => Assign(s, h, s.ptr[from])
    case AssignMoveOp(h, from, temporary) => AssignMove(s, h, from, temporary)
    case SwapOp(h, k) => Swap(s, h, k)
    case HandOutOp(h) => HandOut(s, h)
    case GiveBackOp(o) => GiveBack(s, o)
    case DestroyOp(h) => Destroy(s, h)
  }

  lemma NewConserves<H, O>(s: Heap<H, O>, o: O)
    requires Inv(s) && o !in s.count
    ensures Conserves(s, New(s, o))
  {
    var t := New(s, o);
    assert Handles(s, o) == {};
    forall x | x in t.count ensures Total(t, x) == Total(s, x) {
      TotalSame(s, t, x);
    }
  }

  /** Every operation conserves references. */
  lemma StepConserves<H, O>(s: Heap<H, O>, op: Op<H, O>)
    requires Inv(s) && Enabled(s, op)
    ensures HeldAlive(s) && Conserves(s, Step(s, op))
  {
    hide Total, Conserves;
    InvKeepsAlive(s);
    match op
    case NewObject(o) => NewConserves(s, o);
    case ConstructOp(h, p) => ConstructConserves(s, h, p);
    case CopyOp(h, from) => ConstructConserves(s, h, s.ptr[from]);
    case MoveOp(h, from) => MoveConserves(s, h, from);
    case AssignOp(h, p) => AssignConserves(s, h, p);
    case AssignCopyOp(h, from) => AssignConserves(s, h, s.ptr[from]);
    case AssignMoveOp(h, from, temporary) => AssignMoveConserves(s, h, from, temporary);
    case SwapOp(h, k) => SwapConserves(s, h, k);
    case HandOutOp(h) => HandOutConserves(s, h);
    case GiveBackOp(o) => GiveBackConserves(s, o);
    case DestroyOp(h) => DestroyConserves(s, h);
  }

  /** Each operation is enabled where it is performed; nothing else is asked of a run. */
  ghost predicate IsRun<H, O>(s: Heap<H, O>, ops: seq<Op<H, O>>)
    requires Inv(s)
    decreases |ops|
  {
    ops == [] || (Enabled(s, ops[0]) && (StepConserves(s, ops[0]); IsRun(Step(s, ops[0]), ops[1..])))
  }

  ghost function After<H, O>(s: Heap<H, O>, ops: seq<Op<H, O>>): Heap<H, O>
    requires Inv(s) && IsRun(s, ops)
    decreases |ops|
  {
    if ops == [] then s else (StepConserves(s, ops[0]); After(Step(s, ops[0]), ops[1..]))
  }

  /**
   * Conservation over every sequence of operations: a live object's count is the number of handles pointing at it
   * plus the references handed out, and a deleted object has neither.
   */
  lemma {:induction false} RunConserves<H, O>(s: Heap<H, O>, ops: seq<Op<H, O>>)
    requires Inv(s) && IsRun(s, ops)
    ensures Inv(After(s, ops)) && HeldAlive(After(s, ops)) && s.dead <= After(s, ops).dead
    decreases |ops|
  {
    hide Inv, Step, Enabled, HeldAlive;
    InvKeepsAlive(s);
    if ops != [] {
      StepConserves(s, ops[0]);
      RunConserves(Step(s, ops[0]), ops[1..]);
    }
  }

  /** When every handle is gone and nothing is owed, every object that was ever referenced has been deleted. */
  lemma {:induction false} NothingLeaks<H, O>(s: Heap<H, O>, ops: seq<Op<H, O>>, o: O)
    requires Inv(s) && IsRun(s, ops) && o in s.count && Total(s, o) > 0
    requires Total(After(s, ops), o) == 0
    ensures o in After(s, ops).dead
    decreases |ops|
  {
    hide Inv, Step, Enabled, HeldAlive, Total;
    if ops != [] {
      StepConserves(s, ops[0]);
      var t := Step(s, ops[0]);
      ReferencedIsAlive(s, o);
      if Total(t, o) > 0 {
        NothingLeaks(t, ops[1..], o);
      } else {
        RunConserves(t, ops[1..]);
      }
    }
  }

  lemma ReferencedIsAlive<H, O>(s: Heap<H, O>, o: O)
    requires Inv(s) && Total(s, o) > 0 && o in s.count
    ensures o !in s.dead
  {
  }

  /** Some moment of the run, its start and its end included, has a reference to `o`. */
  ghost predicate EverHeld<H, O>(s: Heap<H, O>, ops: seq<Op<H, O>>, o: O)
    requires Inv(s) && IsRun(s, ops)
    decreases |ops|
  {
    Total(s, o) > 0 || (ops != [] && (StepConserves(s, ops[0]); EverHeld(Step(s, ops[0]), ops[1..], o)))
  }

  /** An object is dead at the end of a run exactly when it was, or when it was referenced on the way and no longer is. */
  lemma {:induction false} DeadExactly<H, O>(s: Heap<H, O>, ops: seq<Op<H, O>>, o: O)
    requires Inv(s) && IsRun(s, ops) && o !in s.dead
    ensures o in After(s, ops).dead <==> EverHeld(s, ops, o) && Total(After(s, ops), o) == 0
    decreases |ops|
  {
    hide Step, Enabled, HeldAlive, Total;
    if ops != [] {
      StepConserves(s, ops[0]);
      var t := Step(s, ops[0]);
      if o in t.dead {
        RunConserves(t, ops[1..]);
      } else {
        HeldIsKnown(s, o);
        DeadExactly(t, ops[1..], o);
      }
    }
  }

  lemma HeldIsKnown<H, O>(s: Heap<H, O>, o: O)
    requires Inv(s)
    ensures Total(s, o) > 0 ==> o in s.count
  {
    if |Handles(s, o)| > 0 {
      var h :| h in Handles(s, o);
    }
  }

  /**
   * The whole life of a program, over every run from nothing: the account, and which objects have been deleted,
   * namely those that were referenced at some moment and are no longer.
   */
  lemma WholeLife<H, O>(start: Heap<H, O>, ops: seq<Op<H, O>>)
    requires Empty(start) && IsRun(start, ops)
    ensures var s := After(start, ops);
            && HeldAlive(s)
            && (forall o :: o in s.count && o !in s.dead ==> s.count[o] == Total(s, o))
            && (forall o :: o in s.dead <==> EverHeld(start, ops, o) && Total(s, o) == 0)
  {
    hide Total, Step, Enabled, EverHeld;
    RunConserves(start, ops);
    forall o ensures o in After(start, ops).dead <==> EverHeld(start, ops, o) && Total(After(start, ops), o) == 0 {
      DeadExactly(start, ops, o);
    }
  }

  // ----- where the handles point -----

  /** The same operation on plain pointers, without any counting. */
  function Pointers<H, O>(ptr: map<H, Option<O>>, op: Op<H, O>): map<H, Option<O>>
    requires (op.CopyOp? || op.MoveOp? || op.AssignCopyOp? || op.AssignMoveOp?) ==> op.from in ptr
    requires op.SwapOp? ==> op.h in ptr && op.k in ptr
  {
    match op
    case ConstructOp(h, p) => ptr[h := p]
    case AssignOp(h, p) => ptr[h := p]
    case CopyOp(h, from) => ptr[h := ptr[from]]
    case AssignCopyOp(h, from) => ptr[h := ptr[from]]
    case MoveOp(h, from) => ptr[from := None][h := ptr[from]]
    case AssignMoveOp(h, from, _) => ptr[from := None][h := ptr[from]]
    case SwapOp(h, k) => ptr[h := ptr[k]][k := ptr[h]]
    case HandOutOp(h) => ptr[h := None]
    case DestroyOp(h) => ptr - {h}
    case _ => ptr
  }

  /** How many references to `o` the caller gets from an operation, less those given back in it. */
  function Received<H, O(==)>(ptr: map<H, Option<O>>, op: Op<H, O>, o: O): int {
    if op.HandOutOp? && op.h in ptr && ptr[op.h] == Some(o) then 1
    else if op == GiveBackOp(o) then -1 else 0
  }

  /** The handles point where plain pointers would, and what is owed is what was handed out and not given back. */
  lemma StepIsPlain<H, O>(s: Heap<H, O>, op: Op<H, O>, o: O)
    requires Inv(s) && Enabled(s, op)
    ensures HeldAlive(s)
    ensures Step(s, op).ptr == Pointers(s.ptr, op)
    ensures Owed(Step(s, op), o) == Owed(s, o) + Received(s.ptr, op, o)
  {
    hide Inv, Total, Pointers;
    PointersStep(s, op);
  }

  /** Plain pointers over a whole run; an operation on a handle that is not there does nothing. */
  function PointersAfter<H, O>(ptr: map<H, Option<O>>, ops: seq<Op<H, O>>): map<H, Option<O>>
    decreases |ops|
  {
    if ops == [] then ptr
    else
      var op := ops[0];
      var missing := ((op.CopyOp? || op.MoveOp? || op.AssignCopyOp? || op.AssignMoveOp?) && op.from !in ptr)
                     || (op.SwapOp? && (op.h !in ptr || op.k !in ptr));
      PointersAfter(if missing then ptr else Pointers(ptr, op), ops[1..])
  }

  lemma PointersStep<H, O>(s: Heap<H, O>, op: Op<H, O>)
    requires Inv(s) && Enabled(s, op)
    ensures HeldAlive(s) && Step(s, op).ptr == Pointers(s.ptr, op)
  {
    hide Inv, Total;
    InvKeepsAlive(s);
    if op.AssignMoveOp? {
      AssignMoveConserves(s, op.h, op.from, op.temporary);
      assert op.h == op.from ==> s.ptr[op.from := None][op.h := s.ptr[op.from]] == s.ptr;
    }
  }

  /** Over every run the handles point where plain pointers would: counting never shows in what they point at. */
  lemma {:induction false} RunIsPlain<H, O>(s: Heap<H, O>, ops: seq<Op<H, O>>)
    requires Inv(s) && IsRun(s, ops)
    ensures After(s, ops).ptr == PointersAfter(s.ptr, ops)
    decreases |ops|
  {
    hide Inv, Step, Pointers;
    if ops != [] {
      StepConserves(s, ops[0]);
      PointersStep(s, ops[0]);
      RunIsPlain(Step(s, ops[0]), ops[1..]);
    }
  }
}
