/**
 * The state of an observer list that may be modified while it is iterated: slots with tombstones, and the
 * iterators that are alive.  Every operation is given as a function on that state; `I` names iterators.
 */
module ObserverSlots {
  import opened Bytes

  /** The address of an observer; never null. */
  type Observer = int

  /** `None` is an entry marked for removal. */
  type Slots = seq<Option<Observer>>

  datatype Policy = All | ExistingOnly

  /** The largest index an iterator goes to: none under ALL, the size at its creation under EXISTING_ONLY. */
  datatype Limit = Unlimited | UpTo(size: nat)

  datatype Cursor = Cursor(index: nat, limit: Limit)

  datatype State<!I> = State(slots: Slots, live: seq<I>, cursors: map<I, Cursor>, policy: Policy)

  // ----- slots -----

  /** The observers that are in the list, in order. */
  function Contents(slots: Slots): seq<Observer> {
    if slots == [] then []
    else Contents(slots[..|slots| - 1]) + if slots[|slots| - 1].Some? then [slots[|slots| - 1].value] else []
  }

  /** `Compact`: erase the entries marked for removal. */
  function Compact(slots: Slots): (r: Slots)
    ensures |r| <= |slots|
  {
    if slots == [] then []
    else Compact(slots[..|slots| - 1]) + if slots[|slots| - 1].Some? then [slots[|slots| - 1]] else []
  }

  /** The first entry equal to `o`, or the end. */
  function IndexOf(slots: Slots, o: Observer): (i: nat)
    ensures i <= |slots| && (i < |slots| ==> slots[i] == Some(o)) && forall j :: 0 <= j < i ==> slots[j] != Some(o)
  {
    if slots == [] || slots[0] == Some(o) then 0
    else
      assert forall j :: 0 < j < |slots| ==> slots[j] == slots[1..][j - 1];
      1 + IndexOf(slots[1..], o)
  }

  /** `EnsureValidIndex`: skip entries marked for removal, up to `end`. */
  function Next(slots: Slots, i: nat, end: nat): (n: nat)
    requires i <= end <= |slots|
    ensures i <= n <= end && (n < end ==> slots[n].Some?) && forall j :: i <= j < n ==> slots[j].None?
    decreases end - i
  {
    if i < end && slots[i].None? then Next(slots, i + 1, end) else i
  }

  /** `clamped_max_index`. */
  function End(limit: Limit, size: nat): nat {
    if limit.UpTo? && limit.size < size then limit.size else size
  }

  ghost predicate Distinct(slots: Slots) {
    forall i, j :: 0 <= i < j < |slots| && slots[i].Some? && slots[j].Some? ==> slots[i] != slots[j]
  }

  ghost predicate NoTombstones(slots: Slots) {
    forall i :: 0 <= i < |slots| ==> slots[i].Some?
  }

  // ----- operations -----

  function Add<I>(s: State<I>, o: Observer): State<I> {
    if IndexOf(s.slots, o) < |s.slots| then s else s.(slots := s.slots + [Some(o)])
  }

  function Remove<I>(s: State<I>, o: Observer): State<I> {
    var i := IndexOf(s.slots, o);
    if i == |s.slots| then s
    else if s.live == [] then s.(slots := s.slots[..i] + s.slots[i + 1..])
    else s.(slots := s.slots[i := None])
  }

  function Clear<I>(s: State<I>): State<I> {
    s.(slots := if s.live == [] then [] else seq(|s.slots|, _ => None))
  }

  /** Remove a node from the list of live iterators. */
  function Unlink<I(==)>(live: seq<I>, id: I): (r: seq<I>)
    ensures forall x :: x in r ==> x in live && x != id
    ensures forall x :: x in live && x != id ==> x in r
  {
    if live == [] then [] else Unlink(live[..|live| - 1], id) + if live[|live| - 1] == id then [] else [live[|live| - 1]]
  }

  /** An iterator lets go of the list; the last one to do so compacts it first. */
  function Detach<I(==)>(s: State<I>, id: I): State<I> {
    if id !in s.live then s
    else State(if |s.live| == 1 then Compact(s.slots) else s.slots, Unlink(s.live, id), s.cursors - {id}, s.policy)
  }

  function Attach<I>(s: State<I>, id: I, c: Cursor): State<I> {
    s.(live := s.live + [id], cursors := s.cursors[id := c])
  }

  /** `Iter(list)`. */
  function Begin<I>(s: State<I>, id: I): State<I> {
    var limit := if s.policy.All? then Unlimited else UpTo(|s.slots|);
    Attach(s, id, Cursor(Next(s.slots, 0, |s.slots|), limit))
  }

  /** `Iter(other)`; a copy of a detached iterator is detached. */
  function Copy<I>(s: State<I>, id: I, from: I): State<I> {
    if from in s.cursors then Attach(s, id, s.cursors[from]) else s
  }

  /** `id = from`. */
  function Assign<I(==)>(s: State<I>, id: I, from: I): State<I> {
    if id == from then s
    else if from in s.cursors then Attach(Detach(s, id), id, s.cursors[from])
    else Detach(s, id)
  }

  predicate AtEnd<I>(s: State<I>, id: I) {
    id in s.cursors ==> s.cursors[id].index == End(s.cursors[id].limit, |s.slots|)
  }

  /** `++id`. */
  function Advance<I>(s: State<I>, id: I): State<I>
    requires !AtEnd(s, id) && s.cursors[id].index <= End(s.cursors[id].limit, |s.slots|)
  {
    var c := s.cursors[id];
    s.(cursors := s.cursors[id := c.(index := Next(s.slots, c.index + 1, End(c.limit, |s.slots|)))])
  }

  // ----- the invariant -----

  ghost predicate Inv<I>(s: State<I>) {
    && Distinct(s.slots)
    && (forall i, j :: 0 <= i < j < |s.live| ==> s.live[i] != s.live[j])
    && (forall id :: id in s.cursors ==> id in s.live) && (forall id :: id in s.live ==> id in s.cursors)
    && (s.live == [] ==> NoTombstones(s.slots))
    && (forall id :: id in s.cursors ==> s.cursors[id].index <= End(s.cursors[id].limit, |s.slots|))
  }

  // ----- what the operations do to the slots -----

  lemma {:induction false} ContentsConcat(a: Slots, b: Slots)
    ensures Contents(a + b) == Contents(a) + Contents(b)
    decreases |b|
  {
    if b == [] {
      assert a + b == a;
    } else {
      assert (a + b)[..|a| + |b| - 1] == a + b[..|b| - 1];
      ContentsConcat(a, b[..|b| - 1]);
    }
  }

  lemma ContentsOfOne(slot: Option<Observer>)
    ensures Contents([slot]) == if slot.Some? then [slot.value] else []
  {
    assert [slot][..0] == [];
  }

  lemma {:induction false} ContentsMembers(slots: Slots, o: Observer)
    ensures o in Contents(slots) <==> Some(o) in slots
  {
    if slots != [] {
      ContentsMembers(slots[..|slots| - 1], o);
      assert slots == slots[..|slots| - 1] + [slots[|slots| - 1]];
    }
  }

  lemma {:induction false} CompactKeepsContents(slots: Slots)
    ensures Contents(Compact(slots)) == Contents(slots) && NoTombstones(Compact(slots))
  {
    if slots != [] {
      var init, last := slots[..|slots| - 1], slots[|slots| - 1];
      CompactKeepsContents(init);
      var c := Compact(init);
      assert (c + [last])[..|c|] == c;
      assert c + [] == c;
    }
  }

  lemma {:induction false} CompactMembers(slots: Slots, x: Option<Observer>)
    requires x in Compact(slots)
    ensures x in slots
  {
    var init, last := slots[..|slots| - 1], slots[|slots| - 1];
    assert slots == init + [last];
    if x in Compact(init) {
      CompactMembers(init, x);
    }
  }

  lemma {:induction false} CompactKeepsDistinct(slots: Slots)
    requires Distinct(slots)
    ensures Distinct(Compact(slots))
  {
    if slots != [] {
      var init, last := slots[..|slots| - 1], slots[|slots| - 1];
      CompactKeepsDistinct(init);
      if last.Some? {
        forall x | x in Compact(init) ensures x != last {
          CompactMembers(init, x);
        }
        DistinctSnoc(Compact(init), last);
      }
    }
  }

  lemma DistinctSnoc(slots: Slots, last: Option<Observer>)
    ensures Distinct(slots) && last !in slots ==> Distinct(slots + [last])
  {
  }

  /** Taking `o` out of a plain sequence. */
  function Without(c: seq<Observer>, o: Observer): seq<Observer> {
    if c == [] then [] else Without(c[..|c| - 1], o) + if c[|c| - 1] == o then [] else [c[|c| - 1]]
  }

  lemma {:induction false} WithoutAbsent(c: seq<Observer>, o: Observer)
    requires o !in c
    ensures Without(c, o) == c
  {
    if c != [] {
      WithoutAbsent(c[..|c| - 1], o);
    }
  }

  lemma {:induction false} WithoutConcat(a: seq<Observer>, b: seq<Observer>, o: Observer)
    ensures Without(a + b, o) == Without(a, o) + Without(b, o)
    decreases |b|
  {
    if b == [] {
      assert a + b == a;
    } else {
      assert (a + b)[..|a| + |b| - 1] == a + b[..|b| - 1];
      WithoutConcat(a, b[..|b| - 1], o);
    }
  }

  /** Taking `o` out leaves what stood before it and behind it, in order. */
  lemma WithoutIs(a: seq<Observer>, b: seq<Observer>, o: Observer)
    requires o !in a && o !in b
    ensures Without(a + b, o) == a + b && Without(a + [o] + b, o) == a + b
  {
    hide Without;
    WithoutAbsent(a + b, o);
    WithoutAbsent(a, o);
    WithoutAbsent(b, o);
    WithoutConcat(a + [o], b, o);
    WithoutConcat(a, [o], o);
    WithoutOne(o);
  }

  /** Erasing the entry and marking it for removal both take the observer out. */
  lemma RemovalTakesOut(slots: Slots, o: Observer)
    requires Distinct(slots) && IndexOf(slots, o) < |slots|
    ensures var i := IndexOf(slots, o);
            && Contents(slots[..i] + slots[i + 1..]) == Without(Contents(slots), o)
            && Contents(slots[i := None]) == Without(Contents(slots), o)
  {
    hide IndexOf, Contents, Without;
    var i := IndexOf(slots, o);
    var a, b := slots[..i], slots[i + 1..];
    assert slots == a + [Some(o)] + b && slots[i := None] == a + [None] + b;
    ContentsConcat(a, b);
    ContentsAround(a, Some(o), b);
    ContentsAround(a, None, b);
    assert Contents(a) + [] + Contents(b) == Contents(a) + Contents(b);
    ContentsMembers(a, o);
    ContentsMembers(b, o);
    WithoutIs(Contents(a), Contents(b), o);
  }

  lemma ContentsAround(a: Slots, slot: Option<Observer>, b: Slots)
    ensures Contents(a + [slot] + b) == Contents(a) + (if slot.Some? then [slot.value] else []) + Contents(b)
  {
    hide Contents;
    ContentsConcat(a + [slot], b);
    ContentsConcat(a, [slot]);
    ContentsOfOne(slot);
  }

  lemma WithoutOne(o: Observer)
    ensures Without([o], o) == []
  {
    assert [o][..0] == [];
  }

  lemma {:induction false} AllTombstones(n: nat)
    ensures Contents(seq(n, _ => None)) == []
  {
    if n > 0 {
      var s: Slots := seq(n, _ => None);
      assert s[..n - 1] == seq(n - 1, _ => None);
      AllTombstones(n - 1);
    }
  }

  // ----- every operation, as one step -----

  datatype Op<!I> =
    | AddOp(o: Observer) | RemoveOp(o: Observer) | ClearOp
    | BeginOp(id: I) | CopyOp(id: I, from: I) | AssignOp(id: I, from: I) | AdvanceOp(id: I) | DestroyOp(id: I)

  /** Constructed iterators are new objects, and only an iterator that is not at the end is advanced. */
  predicate Enabled<I(==)>(s: State<I>, op: Op<I>) {
    match op
    case BeginOp(id) => id !in s.live
    case CopyOp(id, _) => id !in s.live
    case AdvanceOp(id) => !AtEnd(s, id)
    case _ => true
  }

  function Step<I(==)>(s: State<I>, op: Op<I>): State<I>
    requires Enabled(s, op)
    requires op.AdvanceOp? ==> s.cursors[op.id].index <= End(s.cursors[op.id].limit, |s.slots|)
  {
    match op
    case AddOp(o) => Add(s, o)
    case RemoveOp(o) => Remove(s, o)
    case ClearOp => Clear(s)
    case BeginOp(id) => if s.slots == [] then s else Begin(s, id)
    case CopyOp(id, from) => Copy(s, id, from)
    case AssignOp(id, from) => Assign(s, id, from)
    case AdvanceOp(id) => Advance(s, id)
    case DestroyOp(id) => Detach(s, id)
  }

  /** The same operation on a plain sequence without duplicates. */
  function Plain<I>(c: seq<Observer>, op: Op<I>): seq<Observer> {
    match op
    case AddOp(o) => if o in c then c else c + [o]
    case RemoveOp(o) => Without(c, o)
    case ClearOp => []
    case _ => c
  }

  lemma {:induction false} UnlinkKeepsOrder<I>(live: seq<I>, id: I)
    requires forall i, j :: 0 <= i < j < |live| ==> live[i] != live[j]
    ensures var r := Unlink(live, id);
            && (forall i, j :: 0 <= i < j < |r| ==> r[i] != r[j])
            && |r| == if id in live then |live| - 1 else |live|
  {
    if live != [] {
      var init, last := live[..|live| - 1], live[|live| - 1];
      UnlinkKeepsOrder(init, id);
      assert live == init + [last];
      assert last !in init;
      assert last !in Unlink(init, id);
    }
  }

  lemma DetachKeepsInv<I>(s: State<I>, id: I)
    requires Inv(s)
    ensures Inv(Detach(s, id)) && Contents(Detach(s, id).slots) == Contents(s.slots)
  {
    hide Contents, Compact;
    CompactKeepsContents(s.slots);
    CompactKeepsDistinct(s.slots);
    UnlinkKeepsOrder(s.live, id);
    if id in s.live && |s.live| == 1 {
      assert s.live == [id];
    }
  }

  lemma AttachKeepsInv<I>(s: State<I>, id: I, c: Cursor)
    ensures Inv(s) && id !in s.live && c.index <= End(c.limit, |s.slots|) ==> Inv(Attach(s, id, c))
  {
  }

  lemma RemoveKeepsInv<I>(s: State<I>, o: Observer)
    requires Inv(s)
    ensures Inv(Remove(s, o)) && Contents(Remove(s, o).slots) == Without(Contents(s.slots), o)
  {
    hide Contents, IndexOf, Without;
    if IndexOf(s.slots, o) < |s.slots| {
      RemovalTakesOut(s.slots, o);
    } else {
      ContentsMembers(s.slots, o);
      WithoutAbsent(Contents(s.slots), o);
    }
  }

  lemma AddKeepsInv<I>(s: State<I>, o: Observer)
    requires Inv(s)
    ensures Inv(Add(s, o)) && Contents(Add(s, o).slots) == Plain<I>(Contents(s.slots), AddOp(o))
  {
    hide Contents, IndexOf;
    ContentsMembers(s.slots, o);
    ContentsConcat(s.slots, [Some(o)]);
    ContentsOfOne(Some(o));
  }

  lemma AssignKeepsInv<I>(s: State<I>, id: I, from: I)
    requires Inv(s)
    ensures Inv(Assign(s, id, from)) && Contents(Assign(s, id, from).slots) == Contents(s.slots)
  {
    hide Contents, Compact, Inv;
    if id != from {
      DetachKeepsInv(s, id);
      if from in s.cursors {
        OthersStay(s, id, from);
        AttachKeepsInv(Detach(s, id), id, s.cursors[from]);
      }
    }
  }

  /** When an iterator lets go while another is alive, nothing moves. */
  lemma OthersStay<I>(s: State<I>, id: I, other: I)
    requires Inv(s) && other in s.cursors && other != id
    ensures var r := Detach(s, id);
            && r.slots == s.slots && other in r.cursors && r.cursors[other] == s.cursors[other] && id !in r.live
            && s.cursors[other].index <= End(s.cursors[other].limit, |s.slots|)
  {
    assert other in s.live;
    assert |s.live| == 1 ==> s.live == [s.live[0]];
  }

  /** A copy and an assigned iterator go on from where the original stands, and leave the original there. */
  lemma CopyContinues<I>(s: State<I>, id: I, from: I)
    requires Inv(s) && id != from && from in s.cursors
    ensures var t := Assign(s, id, from);
            t.slots == s.slots && id in t.cursors && from in t.cursors && t.cursors[id] == t.cursors[from] == s.cursors[from]
    ensures id !in s.live ==>
            var t := Copy(s, id, from);
            t.slots == s.slots && id in t.cursors && from in t.cursors && t.cursors[id] == t.cursors[from] == s.cursors[from]
  {
    OthersStay(s, id, from);
  }

  /** Every operation keeps the invariant and does to the observers what it does to a plain sequence. */
  lemma StepRefines<I>(s: State<I>, op: Op<I>)
    requires Inv(s) && Enabled(s, op)
    ensures Inv(Step(s, op)) && Contents(Step(s, op).slots) == Plain(Contents(s.slots), op)
  {
    hide Contents, IndexOf, Without;
    match op
    case AddOp(o) => AddKeepsInv(s, o);
    case RemoveOp(o) => RemoveKeepsInv(s, o);
    case ClearOp =>
      AllTombstones(|s.slots|);
      assert Contents([]) == [] by { NoContents(); }
    case BeginOp(id) =>
    case CopyOp(id, from) =>
    case AssignOp(id, from) => AssignKeepsInv(s, id, from);
    case AdvanceOp(id) =>
    case DestroyOp(id) => DetachKeepsInv(s, id);
  }

  lemma NoContents()
    ensures Contents([]) == []
  {
  }

  // ----- runs -----

  /** Run `ops` in order; an operation that is not enabled is not performed. */
  function Run<I(==)>(s: State<I>, ops: seq<Op<I>>): State<I> {
    if ops == [] then s
    else
      var t := Run(s, ops[..|ops| - 1]);
      var op := ops[|ops| - 1];
      if Performed(t, op) then Step(t, op) else t
  }

  predicate Performed<I(==)>(s: State<I>, op: Op<I>) {
    Enabled(s, op) && (op.AdvanceOp? ==> s.cursors[op.id].index <= End(s.cursors[op.id].limit, |s.slots|))
  }

  /** The list operations of a run, on a plain sequence. */
  function PlainRun<I>(c: seq<Observer>, ops: seq<Op<I>>): seq<Observer> {
    if ops == [] then c else Plain(PlainRun(c, ops[..|ops| - 1]), ops[|ops| - 1])
  }

  /** Refinement over every run: the entries not marked for removal are always what a plain sequence would hold. */
  lemma {:induction false} RunRefines<I>(s: State<I>, ops: seq<Op<I>>)
    requires Inv(s)
    ensures Inv(Run(s, ops)) && Contents(Run(s, ops).slots) == PlainRun(Contents(s.slots), ops)
    decreases |ops|
  {
    hide Contents, Inv, Step, Enabled;
    if ops != [] {
      var n := |ops| - 1;
      RunRefines(s, ops[..n]);
      var t := Run(s, ops[..n]);
      var op := ops[n];
      if Performed(t, op) {
        StepRefines(t, op);
      } else {
        NotPerformed(t, op);
      }
    }
  }

  lemma NotPerformed<I>(s: State<I>, op: Op<I>)
    ensures Inv(s) && !Performed(s, op) ==> Plain(Contents(s.slots), op) == Contents(s.slots)
  {
  }
}
