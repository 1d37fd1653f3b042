/**
 * `GetOrCreateLazyPointer` as a protocol over one shared word: zero, the value that says "being created", or the
 * pointer itself.  Any number of threads run it, and each load, store and exchange is one step.
 */
module LazyPointer {
  import opened Bytes

  type Word = int
  type Thread = int

  /** `kLazyInstanceStateCreating`. */
  const CREATING: Word := 1

  /** Some bit outside the creating bit is set: the word is an instance. */
  predicate IsInstance(w: Word) {
    w != 0 && w != CREATING
  }

  /** What a creator may return: null or an aligned pointer. */
  predicate Returnable(w: Word) {
    w != CREATING
  }

  /** Where a thread is in its call. */
  datatype Place =
    | AtNeeds
    | AtCreate
    | AtComplete(made: Word)
    | AtReload
    | Returned(result: Word)

  /** `made` records what the creator returned, run by run. */
  datatype State = State(word: Word, at: map<Thread, Place>, made: seq<Word>)

  const START := State(0, map[], [])

  datatype Action =
    | Enter(t: Thread)
    | Needs(t: Thread)
    | Create(t: Thread, w: Word)
    | Complete(t: Thread)
    | Reload(t: Thread)

  predicate Is(s: State, t: Thread, p: Place) {
    t in s.at && s.at[t] == p
  }

  predicate Enabled(s: State, a: Action) {
    match a
    case Enter(t) => t !in s.at || s.at[t].Returned?
    case Needs(t) => Is(s, t, AtNeeds)
    case Create(t, w) => Is(s, t, AtCreate) && Returnable(w)
    case Complete(t) => t in s.at && s.at[t].AtComplete?
    case Reload(t) => Is(s, t, AtReload)
  }

  function Go(s: State, t: Thread, p: Place): State {
    s.(at := s.at[t := p])
  }

  /**
   * `Enter` is the first load; `Needs` one attempt inside `NeedsLazyInstance`, which returns true after taking the
   * word from zero to creating, returns false once there is an instance, and otherwise keeps waiting.
   */
  function Step(s: State, a: Action): State
    requires Enabled(s, a)
  {
    match a
    case Enter(t) => Go(s, t, if IsInstance(s.word) then Returned(s.word) else AtNeeds)
    case Needs(t) =>
      if s.word == 0 then Go(s.(word := CREATING), t, AtCreate)
      else if IsInstance(s.word) then Go(s, t, AtReload)
      else s
    case Create(t, w) => Go(s.(made := s.made + [w]), t, AtComplete(w))
    case Complete(t) => Go(s.(word := s.at[t].made), t, Returned(s.at[t].made))
    case Reload(t) => Go(s, t, Returned(s.word))
  }

  // ----- the invariant -----

  /** Every creator run returned null. */
  predicate AllNull(made: seq<Word>) {
    forall i :: 0 <= i < |made| ==> made[i] == 0
  }

  /** Every creator run but the last returned null, and the last returned `last`. */
  predicate AllNullBut(made: seq<Word>, last: Word) {
    made != [] && made[|made| - 1] == last && AllNull(made[..|made| - 1])
  }

  /** What must hold of a thread at a place. */
  predicate PlaceOk(word: Word, made: seq<Word>, p: Place) {
    match p
    case AtNeeds => true
    case AtCreate => word == CREATING && AllNull(made)
    case AtComplete(w) => word == CREATING && Returnable(w) && AllNullBut(made, w)
    case AtReload => IsInstance(word)
    case Returned(w) => Returnable(w) && if w == 0 then 0 in made else w == word
  }

  /** A thread here has taken the word and not given it back. */
  predicate Holding(p: Place) {
    p.AtCreate? || p.AtComplete?
  }

  ghost predicate Inv(s: State) {
    && (forall t :: t in s.at ==> PlaceOk(s.word, s.made, s.at[t]))
    && (forall t, u :: t in s.at && u in s.at && Holding(s.at[t]) && Holding(s.at[u]) ==> t == u)
    && (s.word == CREATING ==> exists t :: t in s.at && Holding(s.at[t]))
    && (s.word == 0 ==> AllNull(s.made))
    && (IsInstance(s.word) ==> AllNullBut(s.made, s.word))
  }

  lemma NullExtends(made: seq<Word>, w: Word)
    requires AllNull(made)
    ensures AllNullBut(made + [w], w)
  {
    assert (made + [w])[..|made|] == made;
  }

  lemma NullCompletes(made: seq<Word>)
    ensures AllNullBut(made, 0) ==> AllNull(made) && 0 in made
  {
  }

  lemma NeedsKeepsInv(s: State, t: Thread)
    requires Inv(s) && Enabled(s, Needs(t))
    ensures Inv(Step(s, Needs(t)))
  {
    hide AllNull, AllNullBut;
    var r := Step(s, Needs(t));
    assert s.word == CREATING ==> r == s;
    assert s.word == 0 ==> t in r.at && Holding(r.at[t]);
  }

  lemma CreateKeepsInv(s: State, t: Thread, w: Word)
    requires Inv(s) && Enabled(s, Create(t, w))
    ensures Inv(Step(s, Create(t, w)))
  {
    hide AllNull, AllNullBut;
    var r := Step(s, Create(t, w));
    assert PlaceOk(s.word, s.made, s.at[t]);
    NullExtends(s.made, w);
    assert 0 in s.made ==> 0 in r.made;
    assert t in r.at && Holding(r.at[t]);
  }

  lemma CompleteKeepsInv(s: State, t: Thread)
    requires Inv(s) && Enabled(s, Complete(t))
    ensures Inv(Step(s, Complete(t)))
  {
    hide AllNull, AllNullBut;
    assert PlaceOk(s.word, s.made, s.at[t]) && Holding(s.at[t]);
    if s.at[t].made == 0 {
      NullCompletes(s.made);
    }
  }

  lemma EnterKeepsInv(s: State, t: Thread)
    requires Inv(s) && Enabled(s, Enter(t))
    ensures Inv(Step(s, Enter(t)))
  {
    hide AllNull, AllNullBut;
    var r := Step(s, Enter(t));
    if s.word == CREATING {
      var h :| h in s.at && Holding(s.at[h]);
      assert h in r.at && Holding(r.at[h]);
    }
  }

  lemma ReloadKeepsInv(s: State, t: Thread)
    requires Inv(s) && Enabled(s, Reload(t))
    ensures Inv(Step(s, Reload(t)))
  {
    hide AllNull, AllNullBut;
    assert PlaceOk(s.word, s.made, s.at[t]);
  }

  /** Every step of every thread keeps the invariant, and the word only moves along its three states. */
  lemma StepKeepsInv(s: State, a: Action)
    requires Inv(s) && Enabled(s, a)
    ensures Inv(Step(s, a))
    ensures Moves(s.word, Step(s, a).word)
  {
    hide Inv, AllNull, AllNullBut;
    match a
    case Enter(t) => EnterKeepsInv(s, t);
    case Needs(t) => NeedsKeepsInv(s, t);
    case Create(t, w) => CreateKeepsInv(s, t, w);
    case Complete(t) =>
      CompleteKeepsInv(s, t);
      HolderHasWord(s, t);
    case Reload(t) => ReloadKeepsInv(s, t);
  }

  /** Zero to creating, creating to an instance (or back to zero for a null creator); an instance stays. */
  predicate Moves(before: Word, after: Word) {
    before == after || (before == 0 && after == CREATING) || (before == CREATING && Returnable(after))
  }

  lemma HolderHasWord(s: State, t: Thread)
    requires Inv(s) && t in s.at && Holding(s.at[t])
    ensures s.word == CREATING && (s.at[t].AtComplete? ==> Returnable(s.at[t].made))
  {
  }

  // ----- runs -----

  predicate IsRun(s: State, actions: seq<Action>)
    decreases |actions|
  {
    actions == [] || (Enabled(s, actions[0]) && IsRun(Step(s, actions[0]), actions[1..]))
  }

  function After(s: State, actions: seq<Action>): State
    requires IsRun(s, actions)
    decreases |actions|
  {
    if actions == [] then s else After(Step(s, actions[0]), actions[1..])
  }

  lemma {:induction false} RunKeepsInv(s: State, actions: seq<Action>)
    requires Inv(s) && IsRun(s, actions)
    ensures Inv(After(s, actions))
    ensures IsInstance(s.word) ==> After(s, actions).word == s.word && After(s, actions).made == s.made
    decreases |actions|
  {
    hide Inv;
    if actions != [] {
      StepKeepsInv(s, actions[0]);
      if IsInstance(s.word) {
        InstanceEndsCreation(s, actions[0]);
      }
      RunKeepsInv(Step(s, actions[0]), actions[1..]);
    }
  }

  /** Once there is an instance no creator runs and the word is never written again. */
  lemma InstanceEndsCreation(s: State, a: Action)
    requires Inv(s) && Enabled(s, a) && IsInstance(s.word)
    ensures Step(s, a).word == s.word && Step(s, a).made == s.made
  {
    match a
    case Create(t, w) => HolderHasWord(s, t);
    case Complete(t) => HolderHasWord(s, t);
    case _ =>
  }

  /**
   * Over every interleaving of any number of threads.  A creator that never returns null runs at most once, and
   * every call that has returned got what it made.  If creators may return null, still at most one run, the last,
   * made an instance, and every call returned null or that instance; null only if some creator run returned null.
   */
  lemma CreatedAtMostOnce(actions: seq<Action>)
    requires IsRun(START, actions)
    ensures var s := After(START, actions);
            && (forall i :: 0 <= i < |s.made| - 1 ==> s.made[i] == 0)
            && (0 !in s.made ==> |s.made| <= 1)
            && (forall t :: t in s.at && s.at[t].Returned? ==>
                  if s.at[t].result == 0 then 0 in s.made else s.made != [] && s.at[t].result == s.made[|s.made| - 1] == s.word)
  {
    hide IsRun, After;
    RunKeepsInv(START, actions);
    var s := After(START, actions);
    assert AllNull(s.made) || s.made == [] || AllNullBut(s.made, s.made[|s.made| - 1]) by { MadeShape(s); }
    forall i | 0 <= i < |s.made| - 1 ensures s.made[i] == 0 {
      assert AllNull(s.made) || s.made[..|s.made| - 1][i] == s.made[i];
    }
    if |s.made| > 1 {
      assert s.made[0] == 0;
    }
  }

  lemma MadeShape(s: State)
    requires Inv(s)
    ensures AllNull(s.made) || AllNullBut(s.made, s.made[|s.made| - 1])
  {
    if s.word == CREATING {
      var t :| t in s.at && Holding(s.at[t]);
      assert PlaceOk(s.word, s.made, s.at[t]);
    }
  }
}
