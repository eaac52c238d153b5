/**
 * Recursive C11 mutexes over plain ones (section 7.26.4 of the C11 standard): every access to the inner mutex, the
 * owner word and the depth word is one step of one thread, and a schedule is any order of steps.
 */
module RecursiveMutex {
  import opened Bytes

  /** Where the call of one thread stands; the comments name the access that comes next. */
  datatype Place =
    | Idle
    | Locking(try: bool) // read the owner
    | Deepening // read the depth
    | Deepened(d: u32) // write it, one more
    | Acquiring(try: bool) // take the inner mutex
    | Acquired // write the owner
    | Owning // write the depth
    | Unlocking // compare the depth
    | Lowering // read the depth
    | Lowered(d: u32) // write it, one less
    | Clearing // write the depth
    | Disowning // write the owner
    | Releasing // release the inner mutex

  datatype Step = Lock | TryLock | Unlock | Go

  /**
   * `holder` is the thread that has the inner mutex, `tags` are the threads' identities as the owner word stores
   * them, and `nested` counts each thread's successful locks minus its unlocks.
   */
  datatype State = State(
    holder: Option<nat>, owner: u32, depth: u32, tags: seq<u32>, places: seq<Place>, nested: seq<int>)

  predicate Shaped(s: State) { |s.tags| == |s.places| == |s.nested| }

  function At(s: State, t: nat, p: Place): State
    requires Shaped(s) && t < |s.places|
  {
    s.(places := s.places[t := p])
  }

  /** The call of thread `t` ends and changes its nesting. */
  function End(s: State, t: nat, n: int): State
    requires Shaped(s) && t < |s.places|
  {
    s.(places := s.places[t := Idle], nested := s.nested[t := n])
  }

  /**
   * One step of thread `t`; what it may not do now changes nothing. Only a thread that has the mutex unlocks it, and
   * none nests 2^32 - 1 times. A blocking thread waits by taking steps that change nothing.
   */
  function Do(s: State, t: nat, step: Step): State
    requires Shaped(s) && t < |s.places|
  {
    var me, n := s.tags[t], s.nested[t];
    match s.places[t]
    case Idle =>
      if step.Unlock? && n > 0 then At(s, t, Unlocking)
      else if (step.Lock? || step.TryLock?) && n < 0xFFFF_FFFF then At(s, t, Locking(step.TryLock?))
      else s
    case Locking(try) => At(s, t, if s.owner == me then Deepening else Acquiring(try))
    case Deepening => At(s, t, Deepened(s.depth))
    case Deepened(d) => End(s.(depth := (d + 1) % 0x1_0000_0000), t, n + 1)
    case Acquiring(try) =>
      if s.holder.None? then At(s.(holder := Some(t)), t, Acquired) else if try then End(s, t, n) else s
    case Acquired => At(s.(owner := me), t, Owning)
    case Owning => End(s.(depth := 1), t, n + 1)
    case Unlocking => At(s, t, if s.depth > 1 then Lowering else Clearing)
    case Lowering => At(s, t, Lowered(s.depth))
    case Lowered(d) => End(s.(depth := (d - 1) % 0x1_0000_0000), t, n - 1)
    case Clearing => At(s.(depth := 0), t, Disowning)
    case Disowning => At(s.(owner := 0), t, Releasing)
    case Releasing => End(s.(holder := None), t, n - 1)
  }

  function Advance(s: State, next: (nat, Step)): State
    requires Shaped(s)
  {
    if next.0 < |s.places| then Do(s, next.0, next.1) else s
  }

  /** The state after the first `n` steps of a schedule. */
  function Run(s: State, schedule: seq<(nat, Step)>, n: nat): (d: State)
    requires Shaped(s) && n <= |schedule|
    ensures Shaped(d)
    decreases n, |schedule|
  {
    if n == 0 then s else Advance(Run(s, schedule, n - 1), schedule[n - 1])
  }

  /** Threads have different identities, and none is zero. */
  predicate TagsOk(tags: seq<u32>) {
    (forall t :: 0 <= t < |tags| ==> tags[t] != 0) && forall t, u :: 0 <= t < u < |tags| ==> tags[t] != tags[u]
  }

  /** A fresh mutex and no call under way. */
  predicate Initial(s: State) {
    && Shaped(s) && TagsOk(s.tags) && s.holder == None && s.owner == 0 && s.depth == 0
    && forall t :: 0 <= t < |s.places| ==> s.places[t] == Idle && s.nested[t] == 0
  }

  // ---- the invariant ----

  /** Thread `t` has the mutex and the words say so. */
  predicate Has(s: State, t: nat)
    requires Shaped(s) && t < |s.places|
  {
    s.holder == Some(t) && s.owner == s.tags[t] && s.depth == s.nested[t] > 0
  }

  predicate PlaceOk(s: State, t: nat)
    requires Shaped(s) && t < |s.places|
  {
    var mine, n := s.holder == Some(t), s.nested[t];
    match s.places[t]
    case Idle => if n == 0 then !mine else Has(s, t)
    case Locking(_) => n < 0xFFFF_FFFF && if n == 0 then !mine else Has(s, t)
    case Deepening => n < 0xFFFF_FFFF && Has(s, t)
    case Deepened(d) => n < 0xFFFF_FFFF && Has(s, t) && d == n
    case Acquiring(_) => n == 0 && !mine
    case Acquired => n == 0 && mine && s.owner == 0
    case Owning => n == 0 && mine && s.owner == s.tags[t]
    case Unlocking => Has(s, t)
    case Lowering => Has(s, t) && n > 1
    case Lowered(d) => Has(s, t) && n > 1 && d == n
    case Clearing => Has(s, t) && n == 1
    case Disowning => n == 1 && mine && s.owner == s.tags[t]
    case Releasing => n == 1 && mine && s.owner == 0
  }

  /** A non-zero owner word names the thread that has the inner mutex. */
  predicate OwnerOk(s: State)
    requires Shaped(s)
  {
    && (s.holder.Some? ==> s.holder.value < |s.tags|)
    && (s.owner != 0 ==> s.holder.Some? && s.owner == s.tags[s.holder.value])
  }

  predicate Inv(s: State) {
    && Shaped(s) && TagsOk(s.tags) && OwnerOk(s)
    && forall t :: 0 <= t < |s.places| ==> PlaceOk(s, t)
  }

  /** The unlocked comparison tells the truth: only the holder finds its own identity in the owner word. */
  lemma {:induction false} OwnerReadIsSafe(s: State, t: nat)
    requires Inv(s) && t < |s.places|
    ensures s.owner == s.tags[t] ==> s.holder == Some(t)
  {
    assert s.tags[t] != 0;
  }

  lemma {:induction false} PlaceHere(s: State, t: nat)
    requires Inv(s) && t < |s.places|
    ensures Shaped(s) && PlaceOk(s, t) && OwnerOk(s) && s.tags[t] != 0
  {
  }

  lemma {:induction false} OwnPlaceKept(s: State, t: nat, step: Step)
    requires Inv(s) && t < |s.places|
    ensures PlaceOk(Do(s, t, step), t) && OwnerOk(Do(s, t, step))
  {
    hide Inv, TagsOk;
    PlaceHere(s, t);
    OwnerReadIsSafe(s, t);
  }

  lemma {:induction false} PlacesApart(s: State, t: nat, u: nat)
    requires Inv(s) && t < |s.places| && u < |s.places| && t != u
    ensures Shaped(s) && PlaceOk(s, t) && PlaceOk(s, u) && OwnerOk(s)
    ensures s.tags[t] != 0 && s.tags[u] != 0 && s.tags[t] != s.tags[u]
  {
  }

  lemma {:induction false} OtherPlaceKept(s: State, t: nat, step: Step, u: nat)
    requires Inv(s) && t < |s.places| && u < |s.places| && t != u
    ensures PlaceOk(Do(s, t, step), u)
  {
    hide Inv, TagsOk;
    PlacesApart(s, t, u);
    assert s.places[u] == Do(s, t, step).places[u];
  }

  lemma {:induction false} PlaceKept(s: State, t: nat, step: Step, u: nat)
    requires Inv(s) && t < |s.places| && u < |s.places|
    ensures PlaceOk(Do(s, t, step), u)
  {
    if u == t {
      OwnPlaceKept(s, t, step);
    } else {
      OtherPlaceKept(s, t, step, u);
    }
  }

  lemma {:induction false} StepShape(s: State, t: nat, step: Step)
    requires Shaped(s) && t < |s.places|
    ensures
      var d := Do(s, t, step);
      Shaped(d) && d.tags == s.tags && |d.places| == |s.places|
  {
  }

  lemma {:induction false} StepKeepsInv(s: State, next: (nat, Step))
    requires Inv(s)
    ensures Inv(Advance(s, next))
  {
    hide Do, PlaceOk, OwnerOk, TagsOk;
    if next.0 < |s.places| {
      var d := Do(s, next.0, next.1);
      StepShape(s, next.0, next.1);
      OwnPlaceKept(s, next.0, next.1);
      forall u | 0 <= u < |d.places| ensures PlaceOk(d, u) {
        PlaceKept(s, next.0, next.1, u);
      }
    }
  }

  lemma {:induction false} RunKeepsInv(s: State, schedule: seq<(nat, Step)>, n: nat)
    requires Initial(s) && n <= |schedule|
    ensures Inv(Run(s, schedule, n))
  {
    if n > 0 {
      RunKeepsInv(s, schedule, n - 1);
      StepKeepsInv(Run(s, schedule, n - 1), schedule[n - 1]);
    }
  }

  // ---- every run ----

  /** A thread that waits for the inner mutex takes it when it is free; only an attempt gives up when it is not. */
  lemma {:induction false} OnlyTriesGiveUp(s: State, t: nat, step: Step)
    requires Shaped(s) && t < |s.places| && s.places[t].Acquiring?
    ensures
      var d := Do(s, t, step);
      && d.nested == s.nested
      && (s.holder.None? ==> d.holder == Some(t) && d.places[t] == Acquired)
      && (s.holder.Some? ==> d.holder == s.holder && d.places[t] == if s.places[t].try then Idle else s.places[t])
  {
  }

  /** Mutual exclusion: after any steps, at most one thread has locked more often than it has unlocked. */
  lemma {:induction false} MutualExclusion(s: State, schedule: seq<(nat, Step)>, t: nat, u: nat)
    requires Initial(s)
    requires
      var d := Run(s, schedule, |schedule|);
      t < |d.places| && u < |d.places| && d.nested[t] > 0 && d.nested[u] > 0
    ensures t == u
  {
    RunKeepsInv(s, schedule, |schedule|);
    var d := Run(s, schedule, |schedule|);
    assert PlaceOk(d, t) && PlaceOk(d, u);
  }

  /** Between calls, the words describe the thread that has the mutex, and a thread without it is not the owner. */
  lemma {:induction false} DepthIsNesting(s: State, schedule: seq<(nat, Step)>, t: nat)
    requires Initial(s)
    requires
      var d := Run(s, schedule, |schedule|);
      t < |d.places| && d.places[t] == Idle
    ensures
      var d := Run(s, schedule, |schedule|);
      && d.nested[t] >= 0
      && (d.nested[t] > 0 ==> d.holder == Some(t) && d.owner == d.tags[t] && d.depth == d.nested[t])
      && (d.nested[t] == 0 ==> d.holder != Some(t) && d.owner != d.tags[t])
  {
    RunKeepsInv(s, schedule, |schedule|);
    var d := Run(s, schedule, |schedule|);
    assert PlaceOk(d, t);
    OwnerReadIsSafe(d, t);
  }

  /** A thread that has the mutex gets it again without waiting: from the owner test it goes straight to the count. */
  lemma {:induction false} RelockNeverWaits(s: State, t: nat, try: bool)
    requires Inv(s) && t < |s.places| && s.places[t] == Locking(try) && s.nested[t] > 0
    ensures
      var a := Do(s, t, Go);
      var b := Do(a, t, Go);
      var c := Do(b, t, Go);
      s.depth < 0xFFFF_FFFF && c == End(s.(depth := s.depth + 1), t, s.nested[t] + 1)
  {
    assert PlaceOk(s, t);
    var c := Do(Do(Do(s, t, Go), t, Go), t, Go);
    assert c.places == s.places[t := Idle];
  }

  /** A thread that finds the mutex free takes it in four steps of its own, once it has been started. */
  lemma {:induction false} FreeLockTaken(s: State, t: nat, try: bool)
    requires Inv(s) && t < |s.places| && s.places[t] == Idle && s.nested[t] == 0 && s.holder == None
    ensures
      var a := Do(s, t, if try then TryLock else Lock);
      var e := Do(Do(Do(Do(a, t, Go), t, Go), t, Go), t, Go);
      && a == At(s, t, Locking(try))
      && e.holder == Some(t) && e.owner == s.tags[t] && e.depth == 1 && e.places[t] == Idle && e.nested[t] == 1
  {
    assert PlaceOk(s, t);
    OwnerReadIsSafe(s, t);
  }

  /** The last unlock leaves the mutex free after four steps more; one before it only counts down. */
  lemma {:induction false} UnlockGives(s: State, t: nat)
    requires Inv(s) && t < |s.places| && s.places[t] == Idle && s.nested[t] > 0
    ensures
      var a := Do(s, t, Unlock);
      var d := Do(Do(Do(a, t, Go), t, Go), t, Go);
      && a == At(s, t, Unlocking)
      && if s.nested[t] == 1 then
           var e := Do(d, t, Go);
           e.holder == None && e.owner == 0 && e.depth == 0 && e.places[t] == Idle && e.nested[t] == 0
         else
           && d.holder == Some(t) && d.owner == s.owner && d.depth == s.depth - 1
           && d.places[t] == Idle && d.nested[t] == s.nested[t] - 1
  {
    assert PlaceOk(s, t);
  }

  predicate AllUndone(s: State)
    requires Shaped(s)
  {
    forall t :: 0 <= t < |s.places| ==> s.places[t] == Idle && s.nested[t] == 0
  }

  /** When no call is under way and every lock was undone, the mutex is free again. */
  lemma {:induction false} AllReleased(s: State, schedule: seq<(nat, Step)>)
    requires Initial(s) && AllUndone(Run(s, schedule, |schedule|))
    ensures Run(s, schedule, |schedule|).holder == None && Run(s, schedule, |schedule|).owner == 0
  {
    RunKeepsInv(s, schedule, |schedule|);
    NobodyHolds(Run(s, schedule, |schedule|));
  }

  lemma {:induction false} NobodyHolds(s: State)
    requires Inv(s) && AllUndone(s)
    ensures s.holder == None && s.owner == 0
  {
    forall t: nat | t < |s.places| ensures s.holder != Some(t) {
      assert PlaceOk(s, t);
    }
  }
}
