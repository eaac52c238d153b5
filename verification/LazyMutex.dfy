/**
 * Lazy, race-free creation of the object behind a statically initialised bionic mutex. Every atomic load, allocation,
 * compare-exchange and free is one step of one thread; a schedule is any order of steps.
 */
module LazyMutex {
  import opened Bytes

  const RECURSIVE_MARK := 0x8000
  const ERRCHECK_MARK := 0x4000
  const LEAST_POINTER := 0x1_0000

  /** Where `ensure_mutex` of one thread stands. */
  datatype Caller =
    | Idle
    | Loaded(cur: u64)
    | Marked(cur: u64, mark: u32)
    | Made(cur: u64, m: u64)
    | Lost(cur: u64, m: u64)

  /** What one thread may do next; `addr` is what the allocator gives it, if anything. */
  datatype Step = Load | ReadMark | Make(addr: Option<u64>) | Exchange | Discard

  /**
   * The storage, the live objects with their recursiveness, the callers and what finished calls returned. `mark` is
   * the word at the start of the storage; when the storage is 8-aligned it is the low half of the slot.
   */
  datatype State = State(
    aligned: bool, mark: u32, slot: u64, objects: map<u64, bool>, callers: seq<Caller>, returned: seq<Option<u64>>)

  /** `lazy_slot`: the first 8-aligned address in the storage. */
  function SlotAddress(storage: nat): nat { (storage + 7) / 8 * 8 }

  /** For 4-aligned storage the slot is its first or its second word, and fits into the 40 bytes of a bionic mutex. */
  lemma {:induction false} SlotFits(storage: nat)
    requires storage % 4 == 0
    ensures SlotAddress(storage) == (if storage % 8 == 0 then storage else storage + 4)
    ensures SlotAddress(storage) % 8 == 0 && SlotAddress(storage) + 8 <= storage + 40
  {
  }

  predicate WantsRecursive(mark: u32) { mark == RECURSIVE_MARK || mark == ERRCHECK_MARK }

  predicate StaticMark(mark: u32) { mark == 0 || WantsRecursive(mark) }

  /** The three static initialisers. */
  lemma {:induction false} MarksAre(mark: u32)
    ensures StaticMark(mark) <==> mark in {0, 0x8000, 0x4000}
    ensures StaticMark(mark) ==> (WantsRecursive(mark) <==> mark != 0)
  {
  }

  /** The word at the start of the storage, as it is now. */
  function MarkNow(s: State): u32 { if s.aligned then s.slot % 0x1_0000_0000 else s.mark }

  /** In 8-aligned storage the mark is the low half of the slot, whatever stands there by now. */
  lemma {:induction false} MarkOverlaid(s: State)
    ensures s.aligned ==> s.slot == MarkNow(s) + 0x1_0000_0000 * (s.slot / 0x1_0000_0000)
    ensures !s.aligned ==> MarkNow(s) == s.mark
  {
  }

  predicate IsPointer(v: u64) { v > LEAST_POINTER }

  function Return(s: State, t: nat, r: Option<u64>): State
    requires t < |s.callers|
  {
    s.(callers := s.callers[t := Idle], returned := s.returned + [r])
  }

  /** One step of thread `t`; a step that is not its next one changes nothing. */
  function Do(s: State, t: nat, step: Step): State
    requires t < |s.callers|
  {
    match s.callers[t]
    case Idle =>
      if !step.Load? then s
      else if IsPointer(s.slot) then Return(s, t, Some(s.slot))
      else s.(callers := s.callers[t := Loaded(s.slot)])
    case Loaded(cur) =>
      if !step.ReadMark? then s else s.(callers := s.callers[t := Marked(cur, MarkNow(s))])
    case Marked(cur, mark) =>
      if !step.Make? then s
      else if step.addr.None? then Return(s, t, None)
      else
        var m := step.addr.value;
        if !IsPointer(m) || m in s.objects then s
        else s.(objects := s.objects[m := WantsRecursive(mark)], callers := s.callers[t := Made(cur, m)])
    case Made(cur, m) =>
      if !step.Exchange? then s
      else if s.slot == cur then Return(s.(slot := m), t, Some(m))
      else s.(callers := s.callers[t := Lost(s.slot, m)])
    case Lost(cur, m) =>
      if !step.Discard? then s
      else Return(s.(objects := s.objects - {m}), t, if IsPointer(cur) then Some(cur) else None)
  }

  function Advance(s: State, next: (nat, Step)): State { if next.0 < |s.callers| then Do(s, next.0, next.1) else s }

  /** The state after the first `n` steps of a schedule; steps of threads that do not exist are skipped. */
  function Run(s: State, schedule: seq<(nat, Step)>, n: nat): State
    requires n <= |schedule|
    decreases n, s.slot
  {
    if n == 0 then s
    else Advance(Run(s, schedule, n - 1), schedule[n - 1])
  }

  /** Freshly initialised storage and no call under way. */
  predicate Initial(s: State) {
    && StaticMark(s.mark) && s.slot == (if s.aligned then s.mark else 0)
    && s.objects == map[] && s.returned == []
    && forall t :: 0 <= t < |s.callers| ==> s.callers[t] == Idle
  }

  // ---- the invariant ----

  function StartSlot(s: State): u64 { if s.aligned then s.mark else 0 }

  predicate Owns(c: Caller, m: u64) { (c.Made? || c.Lost?) && c.m == m }

  /** What a thread in the middle of a call knows. */
  predicate CallerOk(s: State, c: Caller) {
    match c
    case Idle => true
    case Loaded(cur) => cur == StartSlot(s)
    case Marked(cur, mark) => cur == StartSlot(s) && (s.slot == cur ==> mark == s.mark)
    case Made(cur, m) =>
      && cur == StartSlot(s) && m in s.objects && m != s.slot && IsPointer(m)
      && (s.slot == cur ==> s.objects[m] == WantsRecursive(s.mark))
    case Lost(cur, m) => cur == s.slot && IsPointer(cur) && m in s.objects && m != s.slot
  }

  predicate Published(s: State) {
    IsPointer(s.slot) && s.slot in s.objects && s.objects[s.slot] == WantsRecursive(s.mark)
  }

  predicate CallersOk(s: State) { forall t :: 0 <= t < |s.callers| ==> CallerOk(s, s.callers[t]) }

  /** No object belongs to two calls. */
  predicate OwnersDistinct(s: State) {
    forall t, u, m :: 0 <= t < u < |s.callers| && Owns(s.callers[t], m) ==> !Owns(s.callers[u], m)
  }

  predicate Accounted(s: State, m: u64) {
    (IsPointer(s.slot) && m == s.slot) || exists t :: 0 <= t < |s.callers| && Owns(s.callers[t], m)
  }

  /** Every live object is the published one or the unpublished one of a call under way. */
  predicate NothingLeaked(s: State) { forall m :: m in s.objects ==> Accounted(s, m) }

  predicate ReturnsOk(s: State) {
    forall r :: r in s.returned ==> r == None || (r == Some(s.slot) && IsPointer(s.slot))
  }

  predicate Inv(s: State) {
    && StaticMark(s.mark) && (s.slot == StartSlot(s) || Published(s))
    && CallersOk(s) && OwnersDistinct(s) && NothingLeaked(s) && ReturnsOk(s)
  }

  lemma {:induction false} InitialInv(s: State)
    requires Initial(s)
    ensures Inv(s)
  {
  }

  lemma {:induction false} StepKeepsSlot(s: State, t: nat, step: Step)
    requires Inv(s) && t < |s.callers|
    ensures
      var d := Do(s, t, step);
      d.slot == s.slot || (s.slot == StartSlot(s) && Published(d))
  {
    assert CallerOk(s, s.callers[t]);
  }

  /** Two calls under way know what they should and own different objects. */
  lemma {:induction false} OthersApart(s: State, t: nat, u: nat)
    requires CallersOk(s) && OwnersDistinct(s) && t < |s.callers| && u < |s.callers| && t != u
    ensures CallerOk(s, s.callers[t]) && CallerOk(s, s.callers[u])
    ensures
      var c := s.callers[u];
      c.Made? || c.Lost? ==> !Owns(s.callers[t], c.m)
  {
    var c := s.callers[u];
    assert c.Made? || c.Lost? ==> Owns(c, c.m);
  }

  /** What another thread knows stays true. */
  lemma {:induction false} OtherCallerKept(s: State, t: nat, step: Step, u: nat)
    requires Inv(s) && t < |s.callers| && u < |s.callers| && t != u
    ensures
      var d := Do(s, t, step);
      d.callers[u] == s.callers[u] && CallerOk(d, s.callers[u])
  {
    hide CallersOk, OwnersDistinct, ReturnsOk, NothingLeaked;
    OthersApart(s, t, u);
  }

  lemma {:induction false} OwnCallerKept(s: State, t: nat, step: Step)
    requires Inv(s) && t < |s.callers|
    ensures CallerOk(Do(s, t, step), Do(s, t, step).callers[t])
  {
    assert CallerOk(s, s.callers[t]);
  }

  lemma {:induction false} StepKeepsCallers(s: State, t: nat, step: Step)
    requires Inv(s) && t < |s.callers|
    ensures CallersOk(Do(s, t, step)) && |Do(s, t, step).callers| == |s.callers|
  {
    var d := Do(s, t, step);
    forall u | 0 <= u < |s.callers| ensures CallerOk(d, d.callers[u]) {
      if u == t {
        OwnCallerKept(s, t, step);
      } else {
        OtherCallerKept(s, t, step, u);
      }
    }
  }

  /** A thread that owns an object after a step owned it before, or has just been given it. */
  lemma {:induction false} OwnerKept(s: State, t: nat, step: Step, u: nat, m: u64)
    requires Inv(s) && t < |s.callers| && u < |s.callers|
    ensures
      Owns(Do(s, t, step).callers[u], m) ==> (Owns(s.callers[u], m) && m in s.objects) || (u == t && m !in s.objects)
  {
    assert CallerOk(s, s.callers[u]);
    if u != t {
      OtherCallerKept(s, t, step, u);
    }
  }

  lemma {:induction false} StepKeepsOwners(s: State, t: nat, step: Step)
    requires Inv(s) && t < |s.callers|
    ensures OwnersDistinct(Do(s, t, step))
  {
    var d := Do(s, t, step);
    StepKeepsCallers(s, t, step);
    forall u, v, m | 0 <= u < v < |d.callers| && Owns(d.callers[u], m) ensures !Owns(d.callers[v], m) {
      OwnerKept(s, t, step, u, m);
      OwnerKept(s, t, step, v, m);
    }
  }

  lemma {:induction false} StepKeepsReturns(s: State, t: nat, step: Step)
    requires Inv(s) && t < |s.callers|
    ensures ReturnsOk(Do(s, t, step))
  {
    assert CallerOk(s, s.callers[t]);
  }

  /** What a thread owned it still owns after a step, or it has just published it. */
  lemma {:induction false} OwnerStays(s: State, t: nat, step: Step, u: nat, m: u64)
    requires Inv(s) && t < |s.callers| && u < |s.callers| && Owns(s.callers[u], m) && m in Do(s, t, step).objects
    ensures
      var d := Do(s, t, step);
      |d.callers| == |s.callers| && (Owns(d.callers[u], m) || (IsPointer(d.slot) && d.slot == m))
  {
    hide NothingLeaked, OwnersDistinct, ReturnsOk;
    assert CallerOk(s, s.callers[u]);
  }

  lemma {:induction false} StepLeaksNothing(s: State, t: nat, step: Step, m: u64)
    requires Inv(s) && t < |s.callers| && m in Do(s, t, step).objects
    ensures Accounted(Do(s, t, step), m)
  {
    hide CallersOk, OwnersDistinct, ReturnsOk;
    var d := Do(s, t, step);
    if m in s.objects {
      if IsPointer(s.slot) && m == s.slot {
        StepKeepsSlot(s, t, step);
      } else {
        var u :| 0 <= u < |s.callers| && Owns(s.callers[u], m);
        OwnerStays(s, t, step, u, m);
      }
    } else {
      assert Owns(d.callers[t], m);
    }
  }

  lemma {:induction false} StepKeepsInv(s: State, t: nat, step: Step)
    requires Inv(s) && t < |s.callers|
    ensures Inv(Do(s, t, step))
  {
    assert CallerOk(s, s.callers[t]);
    StepKeepsSlot(s, t, step);
    StepKeepsCallers(s, t, step);
    StepKeepsOwners(s, t, step);
    StepKeepsReturns(s, t, step);
    forall m | m in Do(s, t, step).objects ensures Accounted(Do(s, t, step), m) {
      StepLeaksNothing(s, t, step, m);
    }
  }

  // ---- every run ----

  lemma {:induction false} AdvanceKeepsInv(s: State, next: (nat, Step))
    requires Inv(s)
    ensures Inv(Advance(s, next))
  {
    if next.0 < |s.callers| {
      StepKeepsInv(s, next.0, next.1);
    }
  }

  lemma {:induction false} AdvanceKeepsSlot(s: State, next: (nat, Step))
    requires Inv(s)
    ensures Advance(s, next).mark == s.mark && Advance(s, next).aligned == s.aligned
    ensures IsPointer(s.slot) ==> Advance(s, next).slot == s.slot
  {
    if next.0 < |s.callers| {
      StepKeepsSlot(s, next.0, next.1);
    }
  }

  lemma {:induction false} RunKeepsInv(s: State, schedule: seq<(nat, Step)>, n: nat)
    requires Initial(s) && n <= |schedule|
    ensures Inv(Run(s, schedule, n))
  {
    if n == 0 {
      InitialInv(s);
    } else {
      RunKeepsInv(s, schedule, n - 1);
      AdvanceKeepsInv(Run(s, schedule, n - 1), schedule[n - 1]);
    }
  }

  lemma {:induction false} RunKeepsMark(s: State, schedule: seq<(nat, Step)>, n: nat)
    requires Initial(s) && n <= |schedule|
    ensures var d := Run(s, schedule, n); d.mark == s.mark && d.aligned == s.aligned
  {
    if n > 0 {
      RunKeepsMark(s, schedule, n - 1);
      RunKeepsInv(s, schedule, n - 1);
      AdvanceKeepsSlot(Run(s, schedule, n - 1), schedule[n - 1]);
    }
  }

  /** The slot changes at most once in a run: from its initial value to the address of an object that then stays. */
  lemma {:induction false} SlotChangesOnce(s: State, schedule: seq<(nat, Step)>, i: nat, j: nat)
    requires Initial(s) && i <= j <= |schedule| && Run(s, schedule, i).slot != s.slot
    ensures
      var c, d := Run(s, schedule, i), Run(s, schedule, j);
      d.slot == c.slot && Published(d)
    decreases j
  {
    RunKeepsInv(s, schedule, i);
    RunKeepsMark(s, schedule, i);
    if i < j {
      SlotChangesOnce(s, schedule, i, j - 1);
      RunKeepsInv(s, schedule, j - 1);
      AdvanceKeepsSlot(Run(s, schedule, j - 1), schedule[j - 1]);
      AdvanceKeepsInv(Run(s, schedule, j - 1), schedule[j - 1]);
      StillPublished(Run(s, schedule, j));
    }
  }

  lemma {:induction false} StillPublished(s: State)
    requires Inv(s) && IsPointer(s.slot)
    ensures Published(s)
  {
  }

  /**
   * All calls that succeed, in any order on any threads, return one and the same live object, and it is recursive
   * exactly when the storage was statically initialised so.
   */
  lemma {:induction false} OneObjectForAll(s: State, schedule: seq<(nat, Step)>, x: u64, y: u64)
    requires Initial(s)
    requires
      var d := Run(s, schedule, |schedule|);
      Some(x) in d.returned && Some(y) in d.returned
    ensures
      var d := Run(s, schedule, |schedule|);
      && x == y == d.slot && x in d.objects && x > 0x1_0000
      && d.objects[x] == (s.mark == 0x8000 || s.mark == 0x4000)
  {
    RunKeepsInv(s, schedule, |schedule|);
    RunKeepsMark(s, schedule, |schedule|);
  }

  /** A lost race ends with the winner's object; the loser frees its own unpublished one and nothing else. */
  lemma {:induction false} LoserGetsTheWinner(s: State, t: nat)
    requires Inv(s) && t < |s.callers| && s.callers[t].Lost?
    ensures
      var d := Do(s, t, Discard);
      && d.returned == s.returned + [Some(s.slot)] && d.slot == s.slot
      && d.objects == s.objects - {s.callers[t].m} && s.callers[t].m != s.slot
  {
    assert CallerOk(s, s.callers[t]);
  }

  lemma {:induction false} StepFailsOnlyWithoutMemory(s: State, next: (nat, Step))
    requires Inv(s) && None !in s.returned && next.1 != Make(None)
    ensures None !in Advance(s, next).returned
  {
    if next.0 < |s.callers| {
      assert CallerOk(s, s.callers[next.0]);
    }
  }

  /** As long as the allocator delivers, no call fails. */
  lemma {:induction false} FailsOnlyWithoutMemory(s: State, schedule: seq<(nat, Step)>, n: nat)
    requires Initial(s) && n <= |schedule|
    requires forall i :: 0 <= i < n ==> schedule[i].1 != Make(None)
    ensures None !in Run(s, schedule, n).returned
  {
    if n > 0 {
      FailsOnlyWithoutMemory(s, schedule, n - 1);
      RunKeepsInv(s, schedule, n - 1);
      StepFailsOnlyWithoutMemory(Run(s, schedule, n - 1), schedule[n - 1]);
    }
  }

  /** Once no call is under way, the only object left alive is the published one. */
  lemma {:induction false} NoObjectLeaked(s: State, schedule: seq<(nat, Step)>)
    requires Initial(s)
    ensures
      var d := Run(s, schedule, |schedule|);
      (forall t :: 0 <= t < |d.callers| ==> d.callers[t] == Idle) ==>
        d.objects.Keys == if IsPointer(d.slot) then {d.slot} else {}
  {
    RunKeepsInv(s, schedule, |schedule|);
  }
}
