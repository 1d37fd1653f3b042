/** One pass over an observer list, with callbacks that may do anything to the list and to other iterators. */
module ObserverPass {
  import opened Bytes
  import opened ObserverSlots

  /** While some iterator is alive, slots are only marked for removal or appended. */
  ghost predicate Grown(a: Slots, b: Slots) {
    |a| <= |b| && forall i :: 0 <= i < |a| ==> b[i] == a[i] || b[i] == None
  }

  lemma GrownTransitive(a: Slots, b: Slots, c: Slots)
    ensures Grown(a, b) && Grown(b, c) ==> Grown(a, c)
  {
  }

  predicate Targets<I(==)>(op: Op<I>, id: I) {
    match op
    case BeginOp(x) => x == id
    case CopyOp(x, _) => x == id
    case AssignOp(x, _) => x == id
    case AdvanceOp(x) => x == id
    case DestroyOp(x) => x == id
    case _ => false
  }

  /** Iterator `id` is alive and exactly where it was, and no slot before it or behind it has moved. */
  ghost predicate Undisturbed<I>(s: State<I>, t: State<I>, id: I) {
    id in s.cursors && id in t.cursors && t.cursors[id] == s.cursors[id] && Grown(s.slots, t.slots) && t.policy == s.policy
  }

  /** No operation on anything else disturbs a live iterator. */
  lemma StepLeavesOthers<I>(s: State<I>, op: Op<I>, id: I)
    requires Inv(s) && Enabled(s, op) && id in s.cursors && !Targets(op, id)
    ensures Undisturbed(s, Step(s, op), id)
  {
    hide IndexOf, Compact;
    match op
    case AssignOp(x, from) => OthersStay(s, x, id);
    case DestroyOp(x) => OthersStay(s, x, id);
    case _ =>
      assert id in s.live;
  }

  ghost predicate NoneTargets<I>(ops: seq<Op<I>>, id: I) {
    forall i :: 0 <= i < |ops| ==> !Targets(ops[i], id)
  }

  lemma {:induction false} RunLeavesOthers<I>(s: State<I>, ops: seq<Op<I>>, id: I)
    requires Inv(s) && id in s.cursors && NoneTargets(ops, id)
    ensures Inv(Run(s, ops)) && Undisturbed(s, Run(s, ops), id)
    decreases |ops|
  {
    hide Step, Enabled, Inv, Targets, Contents;
    RunRefines(s, ops);
    if ops != [] {
      var n := |ops| - 1;
      RunLeavesOthers(s, ops[..n], id);
      var t := Run(s, ops[..n]);
      if Performed(t, ops[n]) {
        StepLeavesOthers(t, ops[n], id);
        GrownTransitive(s.slots, t.slots, Step(t, ops[n]).slots);
      }
    }
  }

  // ----- a pass -----

  /** A slot and the observer found in it. */
  datatype Visit = Visit(slot: nat, found: Option<Observer>)

  function Index<I>(s: State<I>, id: I): nat
    requires id in s.cursors
  {
    s.cursors[id].index
  }

  function Bound<I>(s: State<I>, id: I): nat
    requires id in s.cursors
  {
    End(s.cursors[id].limit, |s.slots|)
  }

  /**
   * The loop `for (auto& o : list)`: notify the observer at the cursor, let its callback run the operations of
   * the next turn, advance, and stop at the end.  `turns` has one list of operations for each notification.
   */
  function Pass<I(==)>(s: State<I>, id: I, turns: seq<seq<Op<I>>>): (seq<Visit>, State<I>)
    requires id in s.cursors
    decreases |turns|
  {
    if AtEnd(s, id) || turns == [] || Index(s, id) >= |s.slots| then ([], s)
    else
      var t := Run(s, turns[0]);
      var visit := Visit(Index(s, id), s.slots[Index(s, id)]);
      if id in t.cursors && Performed(t, AdvanceOp(id)) then
        var (more, last) := Pass(Advance(t, id), id, turns[1..]);
        ([visit] + more, last)
      else ([visit], t)
  }

  /** The slots at the moment the cursor reaches or passes slot `j`. */
  function Moment<I(==)>(s: State<I>, id: I, turns: seq<seq<Op<I>>>, j: nat): Slots
    requires id in s.cursors
    decreases |turns|
  {
    if AtEnd(s, id) || turns == [] then s.slots
    else
      var t := Run(s, turns[0]);
      if id in t.cursors && Performed(t, AdvanceOp(id)) then
        var u := Advance(t, id);
        if j <= Index(u, id) then t.slots else Moment(u, id, turns[1..], j)
      else t.slots
  }

  ghost predicate CallbacksSpare<I>(turns: seq<seq<Op<I>>>, id: I) {
    forall i :: 0 <= i < |turns| ==> NoneTargets(turns[i], id)
  }

  /** The cursor stands on a slot that holds an observer, or at the end. */
  ghost predicate Settled<I>(s: State<I>, id: I) {
    Inv(s) && id in s.cursors && Index(s, id) <= Bound(s, id) <= |s.slots| &&
    (Index(s, id) < Bound(s, id) ==> s.slots[Index(s, id)].Some?)
  }

  /** After the callback the iterator can be advanced; it settles further on, over slots marked for removal. */
  lemma Turn<I>(s: State<I>, id: I, ops: seq<Op<I>>)
    requires Settled(s, id) && !AtEnd(s, id) && NoneTargets(ops, id)
    ensures var t := Run(s, ops);
            && Undisturbed(s, t, id) && Performed(t, AdvanceOp(id))
            && var u := Advance(t, id);
               && Settled(u, id) && u.slots == t.slots && u.policy == s.policy
               && u.cursors[id].limit == s.cursors[id].limit && Bound(s, id) <= Bound(u, id)
               && Index(s, id) < Index(u, id)
               && forall j :: Index(s, id) < j < Index(u, id) ==> t.slots[j].None?
  {
    hide Run, Inv;
    RunLeavesOthers(s, ops, id);
    var t := Run(s, ops);
    assert Enabled(t, AdvanceOp(id));
    StepRefines(t, AdvanceOp(id));
  }

  /** What one pass has visited, seen from its start. */
  ghost predicate VisitsExactly<I>(s: State<I>, id: I, turns: seq<seq<Op<I>>>, visits: seq<Visit>, bound: nat)
    requires id in s.cursors
  {
    && (forall i, j :: 0 <= i < j < |visits| ==> visits[i].slot < visits[j].slot)
    && (forall i :: 0 <= i < |visits| ==> Index(s, id) <= visits[i].slot < bound && visits[i].found.Some?)
    && (forall j, x :: Index(s, id) < j < bound ==>
          (Visit(j, x) in visits <==>
           x.Some? && j < |Moment(s, id, turns, j)| && Moment(s, id, turns, j)[j] == x))
    && (Index(s, id) < bound ==> Index(s, id) < |s.slots| && forall x :: Visit(Index(s, id), x) in visits <==> x == s.slots[Index(s, id)])
  }

  /** A pass that has come to its end. */
  ghost predicate Complete<I>(s: State<I>, id: I, turns: seq<seq<Op<I>>>)
    requires id in s.cursors
  {
    var last := Pass(s, id, turns).1;
    id in last.cursors && AtEnd(last, id)
  }

  lemma {:induction false} PassFromHere<I>(s: State<I>, id: I, turns: seq<seq<Op<I>>>)
    requires Settled(s, id) && CallbacksSpare(turns, id) && Complete(s, id, turns)
    ensures var (visits, last) := Pass(s, id, turns);
            && Settled(last, id) && Undisturbed(s, last.(cursors := s.cursors), id)
            && last.cursors[id].limit == s.cursors[id].limit
            && Bound(s, id) <= Bound(last, id)
            && VisitsExactly(s, id, turns, visits, Bound(last, id))
    decreases |turns|
  {
    hide Run, Inv, NoneTargets, Advance, Performed;
    if AtEnd(s, id) {
    } else {
      var t := Run(s, turns[0]);
      Turn(s, id, turns[0]);
      var u := Advance(t, id);
      PassFromHere(u, id, turns[1..]);
      var (more, last) := Pass(u, id, turns[1..]);
      GrownTransitive(s.slots, u.slots, last.slots);
      var visits := [Visit(Index(s, id), s.slots[Index(s, id)])] + more;
      assert Pass(s, id, turns) == (visits, last);
      ExtendVisits(s, t, u, id, turns, more, Bound(last, id));
    }
  }

  lemma MomentStep<I>(s: State<I>, id: I, turns: seq<seq<Op<I>>>, j: nat)
    requires id in s.cursors && !AtEnd(s, id) && turns != []
    requires var t := Run(s, turns[0]); id in t.cursors && Performed(t, AdvanceOp(id))
    ensures var t := Run(s, turns[0]);
            var u := Advance(t, id);
            Moment(s, id, turns, j) == if j <= Index(u, id) then t.slots else Moment(u, id, turns[1..], j)
  {
  }

  lemma ExtendVisits<I>(s: State<I>, t: State<I>, u: State<I>, id: I, turns: seq<seq<Op<I>>>, more: seq<Visit>, bound: nat)
    requires Settled(s, id) && !AtEnd(s, id) && turns != [] && t == Run(s, turns[0])
    requires id in t.cursors && Performed(t, AdvanceOp(id)) && u == Advance(t, id)
    requires Settled(u, id) && u.slots == t.slots && Index(s, id) < Index(u, id)
    requires forall j :: Index(s, id) < j < Index(u, id) ==> t.slots[j].None?
    requires Index(u, id) <= bound && Bound(u, id) <= bound
    requires Index(u, id) == Bound(u, id) ==> bound == Bound(u, id)
    requires VisitsExactly(u, id, turns[1..], more, bound)
    ensures VisitsExactly(s, id, turns, [Visit(Index(s, id), s.slots[Index(s, id)])] + more, bound)
  {
    hide Run, Inv, Performed, Next, Moment, Advance;
    var first := Visit(Index(s, id), s.slots[Index(s, id)]);
    var visits := [first] + more;
    forall j, x | Index(s, id) < j < bound
      ensures Visit(j, x) in visits <==>
              x.Some? && j < |Moment(s, id, turns, j)| && Moment(s, id, turns, j)[j] == x
    {
      assert Visit(j, x) in visits <==> Visit(j, x) in more;
      MomentStep(s, id, turns, j);
    }
  }

  // ----- from `begin()` to the end -----

  /** The slots at the moment a pass that starts with `begin()` on `s` reaches slot `j`. */
  function Reached<I(==)>(s: State<I>, id: I, turns: seq<seq<Op<I>>>, j: nat): Slots {
    if j <= Index(Begin(s, id), id) then s.slots else Moment(Begin(s, id), id, turns, j)
  }

  lemma BeginSettles<I>(s: State<I>, id: I)
    requires Inv(s) && id !in s.live
    ensures var b := Begin(s, id);
            && Settled(b, id) && b.slots == s.slots
            && (forall j :: 0 <= j < Index(b, id) ==> s.slots[j].None?)
            && b.cursors[id].limit == if s.policy.All? then Unlimited else UpTo(|s.slots|)
  {
  }

  /**
   * One pass, whatever its callbacks do.  The visited slots increase strictly.  A slot below the bound is visited,
   * with the observer in it, exactly when it holds one at the moment the cursor reaches it.  The bound is the
   * number of slots at the end under ALL, and at the start under EXISTING_ONLY.
   */
  lemma PassVisitsExactly<I>(s: State<I>, id: I, turns: seq<seq<Op<I>>>)
    requires Inv(s) && id !in s.live && CallbacksSpare(turns, id) && Complete(Begin(s, id), id, turns)
    ensures var (visits, last) := Pass(Begin(s, id), id, turns);
            var bound := if s.policy.All? then |last.slots| else |s.slots|;
            && Grown(s.slots, last.slots)
            && (forall i, j :: 0 <= i < j < |visits| ==> visits[i].slot < visits[j].slot)
            && (forall i :: 0 <= i < |visits| ==> visits[i].slot < bound)
            && (forall j: nat, x :: j < bound ==>
                  (Visit(j, x) in visits <==>
                   x.Some? && j < |Reached(s, id, turns, j)| && Reached(s, id, turns, j)[j] == x))
  {
    hide Inv, Pass, Moment, NoneTargets, Next;
    var b := Begin(s, id);
    BeginSettles(s, id);
    PassFromHere(b, id, turns);
    var (visits, last) := Pass(b, id, turns);
    var bound := Bound(last, id);
    forall j: nat, x | j < bound
      ensures Visit(j, x) in visits <==>
              x.Some? && j < |Reached(s, id, turns, j)| && Reached(s, id, turns, j)[j] == x
    {
      if j < Index(b, id) {
        assert s.slots[j].None?;
        assert Visit(j, x) !in visits;
      }
    }
  }

  /** A slot is only ever marked for removal, so what it held earlier it holds at the moment it is reached, or nothing. */
  lemma {:induction false} MomentLiesBetween<I>(s: State<I>, id: I, turns: seq<seq<Op<I>>>, j: nat)
    requires Settled(s, id) && CallbacksSpare(turns, id) && Complete(s, id, turns)
    ensures Grown(s.slots, Moment(s, id, turns, j)) && Grown(Moment(s, id, turns, j), Pass(s, id, turns).1.slots)
    ensures j < Bound(Pass(s, id, turns).1, id) && Index(s, id) < j ==> j < |Moment(s, id, turns, j)|
    decreases |turns|
  {
    hide Run, Inv, NoneTargets, Advance, Performed;
    if !AtEnd(s, id) {
      var t := Run(s, turns[0]);
      Turn(s, id, turns[0]);
      var u := Advance(t, id);
      PassFromHere(u, id, turns[1..]);
      MomentLiesBetween(u, id, turns[1..], j);
      GrownTransitive(s.slots, u.slots, Moment(u, id, turns[1..], j));
    }
  }

  /**
   * Survivors are visited, removed entries are not.  A slot that still holds its observer when the pass ends was
   * visited; a slot whose observer was removed before the cursor reached it was not; and under EXISTING_ONLY
   * only slots that were there at the start are visited.
   */
  lemma PassVisitsSurvivors<I>(s: State<I>, id: I, turns: seq<seq<Op<I>>>)
    requires Inv(s) && id !in s.live && CallbacksSpare(turns, id) && Complete(Begin(s, id), id, turns)
    ensures var (visits, last) := Pass(Begin(s, id), id, turns);
            var bound := if s.policy.All? then |last.slots| else |s.slots|;
            && bound <= |last.slots|
            && (forall j: nat :: j < bound && last.slots[j].Some? ==> Visit(j, last.slots[j]) in visits)
            && (forall j: nat, x :: Visit(j, x) in visits && j < |s.slots| ==> x == s.slots[j])
            && (s.policy.ExistingOnly? ==> forall i :: 0 <= i < |visits| ==> visits[i].slot < |s.slots|)
  {
    hide Inv, Pass, Moment, NoneTargets, Next;
    var b := Begin(s, id);
    BeginSettles(s, id);
    PassVisitsExactly(s, id, turns);
    PassFromHere(b, id, turns);
    var (visits, last) := Pass(b, id, turns);
    forall j: nat | j < |last.slots|
      ensures Grown(s.slots, Reached(s, id, turns, j)) && Grown(Reached(s, id, turns, j), last.slots)
      ensures j < Bound(last, id) && Index(b, id) < j ==> j < |Reached(s, id, turns, j)|
    {
      MomentLiesBetween(b, id, turns, j);
    }
    forall j: nat | j < Bound(last, id) && last.slots[j].Some? ensures Visit(j, last.slots[j]) in visits {
      var r := Reached(s, id, turns, j);
      assert j < |r| && r[j] == last.slots[j];
    }
    forall j: nat, x | Visit(j, x) in visits && j < |s.slots| ensures x == s.slots[j] {
      var r := Reached(s, id, turns, j);
      assert j < |r| && r[j] == x;
    }
  }
}
