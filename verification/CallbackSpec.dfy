/**
 * The state of a callback list that may be modified while it is notified.  A cursor points at a list node or at
 * the end, and the end of a linked list stays the end when nodes are appended to it.  `I` names iterators.
 */
module CallbackSpec {
  import opened Bytes
  import opened ObserverSlots
  import opened ObserverPass

  /** `End` is the list's own end node. */
  datatype Position = At(index: nat) | End

  /** Callbacks are named by the order of their registration; `None` is an entry that was reset. */
  datatype Calls<!I> =
    Calls(slots: Slots, cursors: map<I, Position>, active: nat, next: Observer, signals: nat)

  datatype CallOp<!I> =
    Subscribe | Unsubscribe(cb: Observer) | Start(id: I) | Duplicate(id: I, from: I) | Fetch(id: I) | Finish(id: I)

  function PositionAt(slots: Slots, i: nat): Position {
    if i < |slots| then At(i) else Position.End
  }

  /** `GetNext`: the node found, if any, and where the cursor is afterwards. */
  function GetNext(slots: Slots, p: Position): (Option<nat>, Position) {
    match p
    case End => (None, Position.End)
    case At(i) =>
      if i > |slots| then (None, Position.End)
      else
        var n := Next(slots, i, |slots|);
        if n == |slots| then (None, Position.End) else (Some(n), PositionAt(slots, n + 1))
  }

  predicate Possible<I(==)>(s: Calls<I>, op: CallOp<I>) {
    match op
    case Subscribe => true
    case Unsubscribe(cb) => Some(cb) in s.slots
    case Start(id) => id !in s.cursors
    case Duplicate(id, from) => id !in s.cursors && from in s.cursors
    case Fetch(id) => id in s.cursors
    case Finish(id) => id in s.cursors
  }

  /** One operation; `signals` counts runs of the removal callback. */
  function Step<I(==)>(s: Calls<I>, op: CallOp<I>): Calls<I>
    requires Possible(s, op) && (op.Finish? ==> s.active > 0)
  {
    match op
    case Subscribe => s.(slots := s.slots + [Some(s.next)], next := s.next + 1)
    case Unsubscribe(cb) =>
      var i := IndexOf(s.slots, cb);
      assert i < |s.slots| by { assert exists j :: 0 <= j < |s.slots| && s.slots[j] == Some(cb); }
      if s.active > 0 then s.(slots := s.slots[i := None])
      else s.(slots := s.slots[..i] + s.slots[i + 1..], signals := s.signals + 1)
    case Start(id) => s.(cursors := s.cursors[id := PositionAt(s.slots, 0)], active := s.active + 1)
    case Duplicate(id, from) => s.(cursors := s.cursors[id := s.cursors[from]], active := s.active + 1)
    case Fetch(id) => s.(cursors := s.cursors[id := GetNext(s.slots, s.cursors[id]).1])
    case Finish(id) =>
      var t := s.(cursors := s.cursors - {id}, active := s.active - 1);
      if t.active > 0 then t
      else t.(slots := Compact(s.slots), signals := s.signals + if None in s.slots then 1 else 0)
  }

  ghost predicate Inv<I>(s: Calls<I>) {
    && Distinct(s.slots) && (forall x :: x in s.slots && x.Some? ==> x.value < s.next)
    && s.active == |s.cursors.Keys|
    && (s.active == 0 ==> NoTombstones(s.slots))
    && (forall id :: id in s.cursors && s.cursors[id].At? ==> s.cursors[id].index < |s.slots|)
  }

  /** The same operation on the plain sequence of subscribed callbacks. */
  function Plainly<I>(c: seq<Observer>, op: CallOp<I>, next: Observer): seq<Observer> {
    match op
    case Subscribe => c + [next]
    case Unsubscribe(cb) => Without(c, cb)
    case _ => c
  }

  lemma UnsubscribeRefines<I>(s: Calls<I>, cb: Observer)
    requires Inv(s) && Some(cb) in s.slots
    ensures Inv(Step(s, Unsubscribe(cb))) && Contents(Step(s, Unsubscribe(cb)).slots) == Without(Contents(s.slots), cb)
  {
    hide Contents, Without;
    RemovalTakesOut(s.slots, cb);
    if s.active == 0 {
      assert s.cursors.Keys == {};
    }
  }

  lemma FinishRefines<I>(s: Calls<I>, id: I)
    requires Inv(s) && id in s.cursors
    ensures s.active > 0 && Inv(Step(s, Finish(id))) && Contents(Step(s, Finish(id)).slots) == Contents(s.slots)
  {
    hide Contents, Compact;
    CompactKeepsContents(s.slots);
    CompactKeepsDistinct(s.slots);
    assert (s.cursors - {id}).Keys == s.cursors.Keys - {id};
    forall x | x in Compact(s.slots) ensures x in s.slots {
      CompactMembers(s.slots, x);
    }
    assert |s.cursors.Keys - {id}| == |s.cursors.Keys| - 1;
  }

  lemma SubscribeRefines<I>(s: Calls<I>)
    requires Inv(s)
    ensures Inv(Step(s, Subscribe)) && Contents(Step(s, Subscribe).slots) == Contents(s.slots) + [s.next]
  {
    hide Contents;
    ContentsConcat(s.slots, [Some(s.next)]);
    ContentsOfOne(Some(s.next));
  }

  /** One more iterator, at a node or at the end. */
  lemma StartKeepsInv<I>(s: Calls<I>, id: I, p: Position)
    requires Inv(s) && id !in s.cursors && (p.At? ==> p.index < |s.slots|)
    ensures Inv(s.(cursors := s.cursors[id := p], active := s.active + 1))
  {
    assert s.cursors[id := p].Keys == s.cursors.Keys + {id};
  }

  lemma FetchKeepsInv<I>(s: Calls<I>, id: I)
    requires Inv(s) && id in s.cursors
    ensures Inv(Step(s, Fetch(id)))
  {
    assert s.cursors[id := GetNext(s.slots, s.cursors[id]).1].Keys == s.cursors.Keys;
  }

  /** Every operation keeps the invariant and does to the callbacks what it does to a plain sequence. */
  lemma StepRefines<I>(s: Calls<I>, op: CallOp<I>)
    requires Inv(s) && Possible(s, op)
    ensures op.Finish? ==> s.active > 0
    ensures Inv(Step(s, op)) && Contents(Step(s, op).slots) == Plainly(Contents(s.slots), op, s.next)
  {
    match op
    case Subscribe => SubscribeRefines(s);
    case Unsubscribe(cb) => UnsubscribeRefines(s, cb);
    case Start(id) => StartKeepsInv(s, id, PositionAt(s.slots, 0));
    case Duplicate(id, from) => StartKeepsInv(s, id, s.cursors[from]);
    case Fetch(id) => FetchKeepsInv(s, id);
    case Finish(id) => FinishRefines(s, id);
  }

  lemma {:induction false} CompactShrinks(slots: Slots)
    ensures |Compact(slots)| < |slots| <==> None in slots
  {
    if slots != [] {
      CompactShrinks(slots[..|slots| - 1]);
      assert slots == slots[..|slots| - 1] + [slots[|slots| - 1]];
    }
  }

  /** The removal callback runs at exactly the operations that make the list shorter, and once at each. */
  lemma SignalsExactly<I>(s: Calls<I>, op: CallOp<I>)
    requires Inv(s) && Done(s, op)
    ensures var t := Step(s, op); t.signals == s.signals + if |t.slots| < |s.slots| then 1 else 0
  {
    hide Inv, Compact;
    CompactShrinks(s.slots);
  }

  /** A copied iterator finds next what the original would find, and does not disturb it. */
  lemma DuplicateContinues<I>(s: Calls<I>, id: I, from: I)
    requires Inv(s) && Possible(s, Duplicate(id, from))
    ensures var t := Step(s, Duplicate(id, from));
            id in t.cursors && from in t.cursors && Found(t, id) == Found(t, from) == Found(s, from)
  {
  }

  // ----- runs -----

  predicate Done<I(==)>(s: Calls<I>, op: CallOp<I>) {
    Possible(s, op) && (op.Finish? ==> s.active > 0)
  }

  /** Run the operations in order; one that is not possible is not performed. */
  function Run<I(==)>(s: Calls<I>, ops: seq<CallOp<I>>): Calls<I> {
    if ops == [] then s
    else
      var t := Run(s, ops[..|ops| - 1]);
      if Done(t, ops[|ops| - 1]) then Step(t, ops[|ops| - 1]) else t
  }

  /** The subscriptions of a run, on a plain sequence and a counter. */
  function PlainRun<I>(c: seq<Observer>, ops: seq<CallOp<I>>, next: Observer): (seq<Observer>, Observer) {
    if ops == [] then (c, next)
    else
      var (d, n) := PlainRun(c, ops[..|ops| - 1], next);
      var op := ops[|ops| - 1];
      (Plainly(d, op, n), if op.Subscribe? then n + 1 else n)
  }

  /** Over every run, the entries that are not reset are what a plain sequence would hold. */
  lemma {:induction false} RunRefines<I>(s: Calls<I>, ops: seq<CallOp<I>>)
    requires Inv(s)
    ensures Inv(Run(s, ops))
    ensures (Contents(Run(s, ops).slots), Run(s, ops).next) == PlainRun(Contents(s.slots), ops, s.next)
    decreases |ops|
  {
    hide Contents, Inv, Without;
    if ops != [] {
      var n := |ops| - 1;
      RunRefines(s, ops[..n]);
      var t, op := Run(s, ops[..n]), ops[n];
      if Done(t, op) {
        StepRefines(t, op);
      } else {
        NotDone(t, op);
      }
    }
  }

  lemma NotDone<I>(s: Calls<I>, op: CallOp<I>)
    requires Inv(s) && !Done(s, op)
    ensures Plainly(Contents(s.slots), op, s.next) == Contents(s.slots)
  {
    hide Contents, Without;
    match op
    case Unsubscribe(cb) =>
      ContentsMembers(s.slots, cb);
      WithoutAbsent(Contents(s.slots), cb);
    case Finish(id) =>
      if id in s.cursors {
        FinishRefines(s, id);
      }
    case _ =>
  }

  // ----- one Notify -----

  predicate Involves<I(==)>(op: CallOp<I>, id: I) {
    match op
    case Start(x) => x == id
    case Duplicate(x, _) => x == id
    case Fetch(x) => x == id
    case Finish(x) => x == id
    case _ => false
  }

  ghost predicate NoneInvolve<I>(ops: seq<CallOp<I>>, id: I) {
    forall i :: 0 <= i < |ops| ==> !Involves(ops[i], id)
  }

  /** The cursor of `id` points where it did, and nodes were only reset or appended. */
  ghost predicate Untouched<I>(s: Calls<I>, t: Calls<I>, id: I) {
    id in s.cursors && id in t.cursors && t.cursors[id] == s.cursors[id] && Grown(s.slots, t.slots)
  }

  lemma StepLeavesOthers<I>(s: Calls<I>, op: CallOp<I>, id: I)
    requires Inv(s) && Done(s, op) && id in s.cursors && !Involves(op, id)
    ensures Untouched(s, Step(s, op), id)
  {
    assert s.active > 0 by { assert id in s.cursors.Keys; }
    match op
    case Finish(x) =>
      var rest := s.cursors.Keys - {x};
      assert id in rest && |rest| == s.active - 1;
    case _ =>
  }

  lemma {:induction false} RunLeavesOthers<I>(s: Calls<I>, ops: seq<CallOp<I>>, id: I)
    requires Inv(s) && id in s.cursors && NoneInvolve(ops, id)
    ensures Inv(Run(s, ops)) && Untouched(s, Run(s, ops), id)
    decreases |ops|
  {
    hide Inv, Step, Contents, Involves;
    RunRefines(s, ops);
    if ops != [] {
      var n := |ops| - 1;
      RunLeavesOthers(s, ops[..n], id);
      var t := Run(s, ops[..n]);
      if Done(t, ops[n]) {
        StepLeavesOthers(t, ops[n], id);
        GrownTransitive(s.slots, t.slots, Step(t, ops[n]).slots);
      }
    }
  }

  /** The node found and the callback in it. */
  function Found<I>(s: Calls<I>, id: I): Option<Visit>
    requires id in s.cursors
  {
    var n := GetNext(s.slots, s.cursors[id]).0;
    if n.None? || n.value >= |s.slots| then None else Some(Visit(n.value, s.slots[n.value]))
  }

  /**
   * The loop of `CallbackList::Notify` from its next `GetNext` on; each callback that runs performs the operations
   * of one turn.  The last component says whether the loop came to its end.
   */
  function Notify<I(==)>(s: Calls<I>, id: I, turns: seq<seq<CallOp<I>>>): (seq<Visit>, bool)
    requires id in s.cursors
    decreases |turns|
  {
    var visit := Found(s, id);
    if visit.None? then ([], true)
    else if turns == [] then ([visit.value], false)
    else
      var t := Run(Step(s, Fetch(id)), turns[0]);
      if id !in t.cursors then ([visit.value], false)
      else
        var (more, complete) := Notify(t, id, turns[1..]);
        ([visit.value] + more, complete)
  }

  /** The nodes when the cursor passes or visits node `j`; nothing if the cursor reaches the end without it. */
  function Passed<I(==)>(s: Calls<I>, id: I, turns: seq<seq<CallOp<I>>>, j: nat): Slots
    requires id in s.cursors
    decreases |turns|
  {
    var visit := Found(s, id);
    if s.cursors[id].End? then []
    else if visit.None? || j <= visit.value.slot then s.slots
    else if turns == [] then []
    else
      var t := Run(Step(s, Fetch(id)), turns[0]);
      if id !in t.cursors then [] else Passed(t, id, turns[1..], j)
  }

  /** The nodes when the cursor comes to the end of the list. */
  function AtTheEnd<I(==)>(s: Calls<I>, id: I, turns: seq<seq<CallOp<I>>>): Slots
    requires id in s.cursors
    decreases |turns|
  {
    if Step(s, Fetch(id)).cursors[id].End? || turns == [] then s.slots
    else
      var t := Run(Step(s, Fetch(id)), turns[0]);
      if id !in t.cursors then [] else AtTheEnd(t, id, turns[1..])
  }

  ghost predicate AllSpare<I>(turns: seq<seq<CallOp<I>>>, id: I) {
    forall i :: 0 <= i < |turns| ==> NoneInvolve(turns[i], id)
  }

  /** A running notification: the invariant holds, and the cursor is on a node or at the end. */
  ghost predicate Running<I>(s: Calls<I>, id: I) {
    Inv(s) && id in s.cursors
  }

  lemma Turn<I>(s: Calls<I>, id: I, ops: seq<CallOp<I>>)
    requires Running(s, id) && NoneInvolve(ops, id)
    ensures var t := Run(Step(s, Fetch(id)), ops);
            Running(t, id) && Grown(s.slots, t.slots) && t.cursors[id] == GetNext(s.slots, s.cursors[id]).1
  {
    hide Inv, Run;
    StepRefines(s, Fetch(id));
    RunLeavesOthers(Step(s, Fetch(id)), ops, id);
  }

  /** The index the cursor stands on. */
  function From<I>(s: Calls<I>, id: I): nat
    requires id in s.cursors && s.cursors[id].At?
  {
    s.cursors[id].index
  }

  /** What a notification runs from a node on, in terms of the nodes at the moment each is passed. */
  ghost predicate RunsExactly<I>(s: Calls<I>, id: I, turns: seq<seq<CallOp<I>>>, visits: seq<Visit>)
    requires id in s.cursors && s.cursors[id].At?
  {
    && (forall i, j :: 0 <= i < j < |visits| ==> visits[i].slot < visits[j].slot)
    && (forall i :: 0 <= i < |visits| ==> From(s, id) <= visits[i].slot)
    && (forall j: nat, x :: From(s, id) <= j ==>
          (Visit(j, x) in visits <==>
           x.Some? && j < |Passed(s, id, turns, j)| && Passed(s, id, turns, j)[j] == x))
  }

  lemma FoundIs<I>(s: Calls<I>, id: I)
    requires Running(s, id) && s.cursors[id].At?
    ensures From(s, id) < |s.slots|
    ensures var n := Next(s.slots, From(s, id), |s.slots|);
            && Found(s, id) == (if n == |s.slots| then None else Some(Visit(n, s.slots[n])))
            && GetNext(s.slots, s.cursors[id]).1 == (if n + 1 < |s.slots| then At(n + 1) else Position.End)
  {
  }

  lemma {:induction false} NotifyFromHere<I>(s: Calls<I>, id: I, turns: seq<seq<CallOp<I>>>)
    requires Running(s, id) && s.cursors[id].At? && AllSpare(turns, id) && Notify(s, id, turns).1
    ensures RunsExactly(s, id, turns, Notify(s, id, turns).0)
    decreases |turns|
  {
    hide Inv, Run, NoneInvolve, Next, Step, GetNext;
    FoundIs(s, id);
    var n := Next(s.slots, From(s, id), |s.slots|);
    if n < |s.slots| {
      var t := Run(Step(s, Fetch(id)), turns[0]);
      Turn(s, id, turns[0]);
      var more := Notify(t, id, turns[1..]).0;
      if n + 1 < |s.slots| {
        NotifyFromHere(t, id, turns[1..]);
        MoreRuns(s, t, id, turns, n, more);
      } else {
        NothingFromEnd(t, id, turns[1..]);
        MoreRuns(s, t, id, turns, n, more);
      }
    } else {
      NoMoreRuns(s, id, turns);
    }
  }

  lemma NothingFromEnd<I>(s: Calls<I>, id: I, turns: seq<seq<CallOp<I>>>)
    requires id in s.cursors && s.cursors[id].End?
    ensures Notify(s, id, turns) == ([], true)
    ensures forall j: nat :: Passed(s, id, turns, j) == []
  {
  }

  lemma NoMoreRuns<I>(s: Calls<I>, id: I, turns: seq<seq<CallOp<I>>>)
    requires Running(s, id) && s.cursors[id].At? && Next(s.slots, From(s, id), |s.slots|) == |s.slots|
    ensures RunsExactly(s, id, turns, Notify(s, id, turns).0)
  {
    hide Inv, Run;
    FoundIs(s, id);
    assert forall j: nat :: Passed(s, id, turns, j) == s.slots;
  }

  lemma PassedStep<I>(s: Calls<I>, t: Calls<I>, id: I, turns: seq<seq<CallOp<I>>>, n: nat, j: nat)
    requires id in s.cursors && s.cursors[id].At? && turns != []
    requires Found(s, id).Some? && Found(s, id).value.slot == n
    requires t == Run(Step(s, Fetch(id)), turns[0]) && id in t.cursors
    ensures Passed(s, id, turns, j) == if j <= n then s.slots else Passed(t, id, turns[1..], j)
  {
  }

  lemma MoreRuns<I>(s: Calls<I>, t: Calls<I>, id: I, turns: seq<seq<CallOp<I>>>, n: nat, more: seq<Visit>)
    requires Running(s, id) && s.cursors[id].At? && turns != []
    requires n == Next(s.slots, From(s, id), |s.slots|) && n < |s.slots| && Found(s, id) == Some(Visit(n, s.slots[n]))
    requires t == Run(Step(s, Fetch(id)), turns[0]) && id in t.cursors
    requires if t.cursors[id].At? then From(t, id) == n + 1 && RunsExactly(t, id, turns[1..], more)
             else more == [] && forall j: nat :: Passed(t, id, turns[1..], j) == []
    ensures RunsExactly(s, id, turns, [Visit(n, s.slots[n])] + more)
  {
    hide Inv, Run, Step, Passed, Found;
    var visits := [Visit(n, s.slots[n])] + more;
    forall j: nat, x | From(s, id) <= j
      ensures Visit(j, x) in visits <==> x.Some? && j < |Passed(s, id, turns, j)| && Passed(s, id, turns, j)[j] == x
    {
      PassedStep(s, t, id, turns, n, j);
      assert Visit(j, x) in visits <==> (j == n && x == s.slots[n]) || Visit(j, x) in more;
    }
  }

  /** The node passed is there when the cursor comes to the end, and only then; in between it can only be reset. */
  lemma {:induction false} PassedBeforeTheEnd<I>(s: Calls<I>, id: I, turns: seq<seq<CallOp<I>>>, j: nat)
    requires Running(s, id) && s.cursors[id].At? && AllSpare(turns, id) && Notify(s, id, turns).1
    requires From(s, id) <= j
    ensures Grown(s.slots, AtTheEnd(s, id, turns))
    ensures j < |Passed(s, id, turns, j)| <==> j < |AtTheEnd(s, id, turns)|
    ensures Passed(s, id, turns, j) != [] ==>
              Grown(s.slots, Passed(s, id, turns, j)) && Grown(Passed(s, id, turns, j), AtTheEnd(s, id, turns))
    decreases |turns|
  {
    hide Inv, Run, NoneInvolve, Next, GetNext;
    FoundIs(s, id);
    var n := Next(s.slots, From(s, id), |s.slots|);
    if n < |s.slots| {
      var t := Run(Step(s, Fetch(id)), turns[0]);
      Turn(s, id, turns[0]);
      PassedStep(s, t, id, turns, n, j);
      if n + 1 < |s.slots| {
        if j > n {
          PassedBeforeTheEnd(t, id, turns[1..], j);
          GrownTransitive(s.slots, t.slots, AtTheEnd(t, id, turns[1..]));
          if Passed(s, id, turns, j) != [] {
            GrownTransitive(s.slots, t.slots, Passed(s, id, turns, j));
          }
        } else {
          PassedBeforeTheEnd(t, id, turns[1..], n + 1);
          GrownTransitive(s.slots, t.slots, AtTheEnd(t, id, turns[1..]));
        }
      } else if j > n {
        NothingFromEnd(t, id, turns[1..]);
      }
    }
  }

  function Begun<I(==)>(s: Calls<I>, id: I): Calls<I>
    requires id !in s.cursors
  {
    Step(s, Start(id))
  }

  /**
   * One whole notification, whatever its callbacks do.  Nodes run in order, each at most once.  A node runs, with
   * the callback in it, exactly when it is in the list at the moment the cursor comes to the end and its callback
   * is still subscribed at the moment the cursor passes it.  So what is subscribed before the pass runs unless it
   * is removed before its turn, and a callback appended later runs only if the cursor was not yet at the end.
   */
  lemma NotifyRunsExactly<I>(s: Calls<I>, id: I, turns: seq<seq<CallOp<I>>>)
    requires Inv(s) && id !in s.cursors && s.slots != [] && AllSpare(turns, id)
    requires Notify(Begun(s, id), id, turns).1
    ensures var b := Begun(s, id);
            var visits := Notify(b, id, turns).0;
            var end := AtTheEnd(b, id, turns);
            && Grown(s.slots, end)
            && (forall i, j :: 0 <= i < j < |visits| ==> visits[i].slot < visits[j].slot)
            && (forall j: nat, x :: Visit(j, x) in visits <==>
                  x.Some? && j < |end| && j < |Passed(b, id, turns, j)| && Passed(b, id, turns, j)[j] == x)
            && (forall j: nat, x :: Visit(j, x) in visits && j < |s.slots| ==> x == s.slots[j])
            && (forall j: nat :: j < |end| && end[j].Some? ==> Visit(j, end[j]) in visits)
  {
    hide Inv, Run, NoneInvolve, Next, GetNext, Notify, Passed, AtTheEnd;
    var b := Begun(s, id);
    StepRefines(s, Start(id));
    NotifyFromHere(b, id, turns);
    forall j: nat
      ensures Grown(s.slots, AtTheEnd(b, id, turns))
      ensures j < |Passed(b, id, turns, j)| <==> j < |AtTheEnd(b, id, turns)|
      ensures Passed(b, id, turns, j) != [] ==>
                Grown(s.slots, Passed(b, id, turns, j)) && Grown(Passed(b, id, turns, j), AtTheEnd(b, id, turns))
    {
      PassedBeforeTheEnd(b, id, turns, j);
    }
    assert Grown(s.slots, AtTheEnd(b, id, turns)) by { PassedBeforeTheEnd(b, id, turns, 0); }
  }

  /** A notification of the empty list runs nothing, even callbacks added meanwhile. */
  lemma NotifyOfNothing<I>(s: Calls<I>, id: I, turns: seq<seq<CallOp<I>>>)
    requires Inv(s) && id !in s.cursors && s.slots == []
    ensures Notify(Begun(s, id), id, turns) == ([], true)
  {
    NothingFromEnd(Begun(s, id), id, turns);
  }
}
