/**
 * Pad events from sampled button states. Replaying the emitted events on a plain consumer gives what the poll meant
 * to show, whatever the capture thread latched in between.
 */
module PadInput {
  datatype Button = A | B | X | Y | L | R | StickL | StickR | Plus | Minus | Up | Down | Left | Right | ZL | ZR

  datatype Event = Event(code: nat, pressed: bool)

  type Table = seq<(Button, nat)>

  /** `s_btnmap`: the pad's buttons and the engine's codes for them. */
  const BUTTONS: Table :=
    [(A, 0), (B, 1), (X, 2), (Y, 3), (L, 9), (R, 10), (StickL, 7), (StickR, 8), (Plus, 6), (Minus, 4),
     (Up, 11), (Down, 12), (Left, 13), (Right, 14)]

  /** No button and no code occurs twice. */
  predicate Distinct(table: Table) {
    forall i, j :: 0 <= i < j < |table| ==> table[i].0 != table[j].0 && table[i].1 != table[j].1
  }

  /** Where a button stands in the table. */
  function RowOf(b: Button): nat {
    match b
    case A => 0 case B => 1 case X => 2 case Y => 3 case L => 4 case R => 5 case StickL => 6 case StickR => 7
    case Plus => 8 case Minus => 9 case Up => 10 case Down => 11 case Left => 12 case Right => 13
    case ZL => 14 case ZR => 15
  }

  /** Where a code stands in the table. */
  function RowOfCode(code: nat): nat {
    if code <= 3 then code
    else if code == 4 then 9
    else if code == 6 then 8
    else if code == 7 || code == 8 then code - 1
    else if code == 9 || code == 10 then code - 5
    else code - 1
  }

  lemma {:induction false} RowIs(i: nat)
    requires i < |BUTTONS|
    ensures RowOf(BUTTONS[i].0) == i && RowOfCode(BUTTONS[i].1) == i
  {
  }

  lemma {:induction false} ButtonsDistinct()
    ensures Distinct(BUTTONS)
  {
    hide RowOf, RowOfCode;
    var table := BUTTONS;
    forall i, j | 0 <= i < j < |table| ensures table[i].0 != table[j].0 && table[i].1 != table[j].1 {
      RowIs(i);
      RowIs(j);
    }
  }

  // ---- the consumer ----

  /** Codes the consumer takes for pressed after one event. */
  function Play(down: set<nat>, e: Event): set<nat> { if e.pressed then down + {e.code} else down - {e.code} }

  function PlayAll(down: set<nat>, events: seq<Event>): set<nat> {
    if events == [] then down else Play(PlayAll(down, events[..|events| - 1]), events[|events| - 1])
  }

  /** Presses and releases of each code alternate, starting from what is down. */
  predicate Alternating(down: set<nat>, events: seq<Event>) {
    events == [] ||
    (Alternating(down, events[..|events| - 1]) &&
     var e := events[|events| - 1];
     e.pressed <==> e.code !in PlayAll(down, events[..|events| - 1]))
  }

  lemma {:induction false} OneMore(down: set<nat>, events: seq<Event>, e: Event)
    requires Alternating(down, events) && (e.pressed <==> e.code !in PlayAll(down, events))
    ensures Alternating(down, events + [e]) && PlayAll(down, events + [e]) == Play(PlayAll(down, events), e)
  {
    var more := events + [e];
    assert more[..|more| - 1] == events;
  }

  /** The presses (true) and releases (false) of one code. */
  function Only(events: seq<Event>, code: nat): seq<bool> {
    if events == [] then []
    else
      var e := events[|events| - 1];
      Only(events[..|events| - 1], code) + (if e.code == code then [e.pressed] else [])
  }

  lemma {:induction false} OnlyMore(events: seq<Event>, e: Event, code: nat)
    ensures Only(events + [e], code) == Only(events, code) + (if e.code == code then [e.pressed] else [])
  {
    var more := events + [e];
    assert more[..|more| - 1] == events;
  }

  // ---- one button ----

  /** What a poll keeps about one button: its last sample, whether a tap is shown, whether a press was latched. */
  datatype ButtonState = ButtonState(prev: bool, synth: bool, latched: bool)

  function Latched(s: ButtonState, down: bool): ButtonState { s.(latched := s.latched || down) }

  /** The button was up, is up, and was pressed in between. */
  predicate IsTap(s: ButtonState, cur: bool) { s.latched && !cur && !s.prev }

  function EdgeOf(s: ButtonState, cur: bool): seq<bool> {
    if cur != s.prev then [cur] else if IsTap(s, cur) then [true] else []
  }

  /** What one poll shows of the button: the end of a tap, then its edge or a new tap. */
  function ShownOf(s: ButtonState, cur: bool): seq<bool> { (if s.synth then [false] else []) + EdgeOf(s, cur) }

  function PolledState(s: ButtonState, cur: bool): ButtonState { ButtonState(cur, IsTap(s, cur), false) }

  /** What happens to one button, in order: the capture thread sees it go down or not, a poll samples it. */
  datatype Moment = Captured(down: bool) | Polled(cur: bool)

  const FRESH := ButtonState(false, false, false)

  function StateAfter(run: seq<Moment>, n: nat): ButtonState
    requires n <= |run|
  {
    if n == 0 then FRESH
    else
      match run[n - 1]
      case Captured(down) => Latched(StateAfter(run, n - 1), down)
      case Polled(cur) => PolledState(StateAfter(run, n - 1), cur)
  }

  /** All that is shown of the button in a run. */
  function Trace(run: seq<Moment>, n: nat): seq<bool>
    requires n <= |run|
  {
    if n == 0 then []
    else
      match run[n - 1]
      case Captured(_) => Trace(run, n - 1)
      case Polled(cur) => Trace(run, n - 1) + ShownOf(StateAfter(run, n - 1), cur)
  }

  // ---- what a run means, without the poll's state ----

  function LastSample(run: seq<Moment>, n: nat): bool
    requires n <= |run|
  {
    n > 0 && match run[n - 1] case Captured(_) => LastSample(run, n - 1) case Polled(cur) => cur
  }

  predicate PressedSince(run: seq<Moment>, n: nat)
    requires n <= |run|
  {
    n > 0 && match run[n - 1] case Captured(down) => down || PressedSince(run, n - 1) case Polled(_) => false
  }

  /** Polls that find the button newly down, and polls that find it up twice with a press seen in between. */
  function PressesDue(run: seq<Moment>, n: nat): nat
    requires n <= |run|
  {
    if n == 0 then 0
    else
      PressesDue(run, n - 1) +
      match run[n - 1]
      case Captured(_) => 0
      case Polled(cur) => if !LastSample(run, n - 1) && (cur || PressedSince(run, n - 1)) then 1 else 0
  }

  function Presses(trace: seq<bool>): nat {
    if trace == [] then 0 else Presses(trace[..|trace| - 1]) + (if trace[|trace| - 1] then 1 else 0)
  }

  lemma {:induction false} PressesMore(a: seq<bool>, b: seq<bool>)
    ensures Presses(a + b) == Presses(a) + Presses(b)
    decreases |b|
  {
    if b == [] {
      assert a + b == a;
    } else {
      var init := b[..|b| - 1];
      PressesMore(a, init);
      assert (a + b)[..|a + b| - 1] == a + init;
    }
  }

  lemma {:induction false} StateMeans(run: seq<Moment>, n: nat)
    requires n <= |run|
    ensures StateAfter(run, n).prev == LastSample(run, n) && StateAfter(run, n).latched == PressedSince(run, n)
    ensures StateAfter(run, n).synth ==> !StateAfter(run, n).prev
  {
    if n > 0 {
      StateMeans(run, n - 1);
    }
  }

  /** The trace of a button starts with a press and alternates; it ends pressed just when the button is shown down. */
  predicate Alternates(trace: seq<bool>) { forall i :: 0 <= i < |trace| ==> trace[i] == (i % 2 == 0) }

  lemma {:induction false} NothingAlternates()
    ensures Alternates([])
  {
  }

  lemma {:induction false} AlternatesOn(trace: seq<bool>, s: ButtonState, cur: bool)
    requires Alternates(trace) && (|trace| % 2 == 1 <==> s.prev || s.synth) && (s.synth ==> !s.prev)
    ensures Alternates(trace + ShownOf(s, cur))
    ensures |trace + ShownOf(s, cur)| % 2 == 1 <==> PolledState(s, cur).prev || PolledState(s, cur).synth
  {
  }

  lemma {:induction false} TraceAlternates(run: seq<Moment>, n: nat)
    requires n <= |run|
    ensures Alternates(Trace(run, n))
    ensures |Trace(run, n)| % 2 == 1 <==> StateAfter(run, n).prev || StateAfter(run, n).synth
  {
    hide Alternates, ShownOf, LastSample, PressedSince;
    NothingAlternates();
    if n > 0 {
      TraceAlternates(run, n - 1);
      StateMeans(run, n - 1);
      if run[n - 1].Polled? {
        AlternatesOn(Trace(run, n - 1), StateAfter(run, n - 1), run[n - 1].cur);
      }
    }
  }

  lemma {:induction false} PressesShown(s: ButtonState, cur: bool)
    requires s.synth ==> !s.prev
    ensures Presses(ShownOf(s, cur)) == if !s.prev && (cur || s.latched) then 1 else 0
  {
    PressesMore(if s.synth then [false] else [], EdgeOf(s, cur));
    assert Presses([false]) == 0 && Presses([true]) == 1 by {
      assert [false][..0] == [] && [true][..0] == [];
    }
  }

  lemma {:induction false} NoPresses()
    ensures Presses([]) == 0
  {
  }

  /**
   * In every run, however captures and polls interleave, a button is shown pressed exactly once for every poll that
   * finds it newly down and once for every interval between two polls that find it up in which a press was captured.
   * The latch is one bit: it does not count the presses of an interval.
   */
  lemma {:induction false} EveryTapOnce(run: seq<Moment>, n: nat)
    requires n <= |run|
    ensures Presses(Trace(run, n)) == PressesDue(run, n)
  {
    hide Presses, ShownOf, StateAfter, IsTap, LastSample, PressedSince;
    NoPresses();
    if n > 0 {
      EveryTapOnce(run, n - 1);
      StateMeans(run, n - 1);
      if run[n - 1].Polled? {
        PressesMore(Trace(run, n - 1), ShownOf(StateAfter(run, n - 1), run[n - 1].cur));
        PressesShown(StateAfter(run, n - 1), run[n - 1].cur);
      }
    }
  }

  // ---- press for press ----

  /** The presses captured since the last poll. */
  function CaughtSince(run: seq<Moment>, n: nat): nat
    requires n <= |run|
  {
    if n == 0 then 0
    else
      match run[n - 1]
      case Captured(down) => CaughtSince(run, n - 1) + (if down then 1 else 0)
      case Polled(_) => 0
  }

  /** The captured presses that a poll has collected. */
  function Collected(run: seq<Moment>, n: nat): nat
    requires n <= |run|
  {
    if n == 0 then 0
    else Collected(run, n - 1) + match run[n - 1] case Captured(_) => 0 case Polled(_) => CaughtSince(run, n - 1)
  }

  /** The presses that only a poll saw: it finds the button newly down, and none was captured. */
  function SeenByPoll(run: seq<Moment>, n: nat): nat
    requires n <= |run|
  {
    if n == 0 then 0
    else
      SeenByPoll(run, n - 1) +
      match run[n - 1]
      case Captured(_) => 0
      case Polled(cur) => if cur && !LastSample(run, n - 1) && CaughtSince(run, n - 1) == 0 then 1 else 0
  }

  /** At most one press is captured between two polls, and none when the first of the two finds the button down. */
  predicate Apart(run: seq<Moment>, n: nat)
    requires n <= |run|
  {
    forall k :: 0 <= k < n && run[k].Polled? ==> CaughtSince(run, k) <= if LastSample(run, k) then 0 else 1
  }

  lemma {:induction false} NothingApart(run: seq<Moment>)
    ensures Apart(run, 0)
  {
  }

  lemma {:induction false} ApartStep(run: seq<Moment>, n: nat)
    requires n < |run|
    ensures Apart(run, n + 1) <==>
      Apart(run, n) && (run[n].Polled? ==> CaughtSince(run, n) <= if LastSample(run, n) then 0 else 1)
  {
  }

  lemma {:induction false} CaughtIsPressed(run: seq<Moment>, n: nat)
    requires n <= |run|
    ensures CaughtSince(run, n) > 0 <==> PressedSince(run, n)
  {
    if n > 0 {
      CaughtIsPressed(run, n - 1);
    }
  }

  /**
   * Sightings of a press are captures, and polls that find the button newly down without one. Never more presses are
   * shown than were sighted, and each sighting is shown as a press of its own exactly when they keep apart: of several
   * captured between two polls only one is shown, and of those captured after a poll that found the button down, none.
   */
  lemma {:induction false} EachPressShown(run: seq<Moment>, n: nat)
    requires n <= |run|
    ensures Presses(Trace(run, n)) <= Collected(run, n) + SeenByPoll(run, n)
    ensures Presses(Trace(run, n)) == Collected(run, n) + SeenByPoll(run, n) <==> Apart(run, n)
  {
    hide Presses, Trace, Apart, LastSample, PressedSince, CaughtSince;
    EveryTapOnce(run, n);
    if n == 0 {
      NothingApart(run);
    } else {
      EachPressShown(run, n - 1);
      EveryTapOnce(run, n - 1);
      ApartStep(run, n - 1);
      CaughtIsPressed(run, n - 1);
    }
  }

  /** Two taps while the game stalls become one. */
  lemma {:induction false} MergedTapsExample()
    ensures
      var run := [Captured(true), Captured(false), Captured(true), Captured(false), Polled(false)];
      Trace(run, 5) == [true] && Collected(run, 5) == 2 && !Apart(run, 5)
  {
    var run := [Captured(true), Captured(false), Captured(true), Captured(false), Polled(false)];
    assert CaughtSince(run, 1) == 1 && Collected(run, 1) == 0 && Trace(run, 1) == [];
    assert CaughtSince(run, 2) == 1 && Collected(run, 2) == 0 && Trace(run, 2) == [];
    assert CaughtSince(run, 3) == 2 && Collected(run, 3) == 0 && Trace(run, 3) == [];
    assert CaughtSince(run, 4) == 2 && Collected(run, 4) == 0 && Trace(run, 4) == [];
    assert StateAfter(run, 1) == StateAfter(run, 2) == ButtonState(false, false, true);
    assert StateAfter(run, 3) == StateAfter(run, 4) == ButtonState(false, false, true);
  }

  /** A tap in a stall that began with the button down is not shown. */
  lemma {:induction false} HeldTapExample()
    ensures
      var run := [Polled(true), Captured(false), Captured(true), Polled(false)];
      Trace(run, 4) == [true, false] && Collected(run, 4) == 1 && SeenByPoll(run, 4) == 1 && !Apart(run, 4)
  {
    var run := [Polled(true), Captured(false), Captured(true), Polled(false)];
    assert StateAfter(run, 1) == StateAfter(run, 2) == ButtonState(true, false, false);
    assert StateAfter(run, 3) == ButtonState(true, false, true);
    assert LastSample(run, 1) && LastSample(run, 2) && LastSample(run, 3);
    assert CaughtSince(run, 1) == CaughtSince(run, 2) == 0 && CaughtSince(run, 3) == 1;
    assert Trace(run, 1) == [true] && Collected(run, 1) == 0 && SeenByPoll(run, 1) == 1;
    assert Trace(run, 2) == [true] && Collected(run, 2) == 0 && SeenByPoll(run, 2) == 1;
    assert Trace(run, 3) == [true] && Collected(run, 3) == 0 && SeenByPoll(run, 3) == 1;
  }

  // ---- buttons and codes ----

  /** The codes of the held buttons that the table knows. */
  function Codes(table: Table, held: set<Button>): set<nat> {
    set i | 0 <= i < |table| && table[i].0 in held :: table[i].1
  }

  lemma {:induction false} CodesAt(table: Table, held: set<Button>, i: nat)
    requires Distinct(table) && i < |table|
    ensures table[i].1 in Codes(table, held) <==> table[i].0 in held
  {
  }

  lemma {:induction false} CodesPlay(table: Table, held: set<Button>, i: nat, pressed: bool)
    requires Distinct(table) && i < |table|
    ensures
      var next := if pressed then held + {table[i].0} else held - {table[i].0};
      Codes(table, next) == Play(Codes(table, held), Event(table[i].1, pressed))
  {
    var next := if pressed then held + {table[i].0} else held - {table[i].0};
    forall j | 0 <= j < |table|
      ensures table[j].1 in Codes(table, next) <==> table[j].1 in Play(Codes(table, held), Event(table[i].1, pressed))
    {
      CodesAt(table, next, j);
      CodesAt(table, held, j);
    }
  }

  lemma {:induction false} CodesAgree(table: Table, h: set<Button>, g: set<Button>)
    requires forall i :: 0 <= i < |table| ==> (table[i].0 in h <==> table[i].0 in g)
    ensures Codes(table, h) == Codes(table, g)
  {
  }

  predicate Knows(table: Table, b: Button) { exists i :: 0 <= i < |table| && table[i].0 == b }

  /** The poll's state: the last sample, the synthetic presses it shows, and what the capture thread latched. */
  class PadPoll {
    const table: Table
    var prev: set<Button>
    var synth: set<Button>
    var pending: set<Button>

    ghost predicate Valid()
      reads this
    {
      Distinct(table) && synth !! prev && forall b :: b in synth ==> Knows(table, b)
    }

    /** What the events so far have shown the consumer. */
    ghost function Shown(): set<nat>
      reads this
    {
      Codes(table, prev + synth)
    }

    /** Where one button stands. */
    function StateOf(b: Button): ButtonState
      reads this
    {
      ButtonState(b in prev, b in synth, b in pending)
    }

    constructor (table: Table)
      requires Distinct(table)
      ensures Valid() && this.table == table && Shown() == {} && forall b :: StateOf(b) == FRESH
    {
      this.table := table;
      prev, synth, pending := {}, {}, {};
    }

    /** The capture thread latches presses; it may do so between any two polls. */
    method Capture(down: set<Button>)
      modifies this`pending
      ensures forall b :: StateOf(b) == Latched(old(StateOf(b)), b in down)
    {
      pending := pending + down;
    }

    /** One more event, in step with the buttons `held` shown so far. */
    ghost predicate InStep(down: set<nat>, events: seq<Event>, held: set<Button>) {
      Alternating(down, events) && PlayAll(down, events) == Codes(table, held)
    }

    lemma {:induction false} StartInStep()
      requires Valid()
      ensures InStep(Shown(), [], prev + synth)
      ensures forall k :: 0 <= k < |table| ==> Only([], table[k].1) == []
    {
    }

    lemma {:induction false} InStepAgrees(down: set<nat>, events: seq<Event>, h: set<Button>, g: set<Button>)
      requires InStep(down, events, h) && forall k :: 0 <= k < |table| ==> (table[k].0 in h <==> table[k].0 in g)
      ensures InStep(down, events, g)
    {
      CodesAgree(table, h, g);
    }

    method Emit(events: seq<Event>, i: nat, pressed: bool, ghost down: set<nat>, ghost held: set<Button>)
      returns (more: seq<Event>)
      requires Distinct(table) && i < |table| && InStep(down, events, held) && (pressed <==> table[i].0 !in held)
      ensures InStep(down, more, if pressed then held + {table[i].0} else held - {table[i].0})
      ensures forall k :: 0 <= k < |table| ==>
        Only(more, table[k].1) == Only(events, table[k].1) + (if k == i then [pressed] else [])
    {
      CodesAt(table, held, i);
      CodesPlay(table, held, i, pressed);
      OneMore(down, events, Event(table[i].1, pressed));
      forall k | 0 <= k < |table|
        ensures Only(events + [Event(table[i].1, pressed)], table[k].1) ==
          Only(events, table[k].1) + (if k == i then [pressed] else [])
      {
        OnlyMore(events, Event(table[i].1, pressed), table[k].1);
        assert k != i ==> table[k].1 != table[i].1;
      }
      return events + [Event(table[i].1, pressed)];
    }

    /** Releases the synthetic presses of the poll before. */
    method ReleaseSynthetic(ghost down: set<nat>) returns (events: seq<Event>)
      requires Valid() && down == Shown()
      modifies this`synth
      ensures Valid() && synth == {} && InStep(down, events, prev)
      ensures forall k :: 0 <= k < |table| ==>
        Only(events, table[k].1) == if table[k].0 in old(synth) then [false] else []
    {
      hide InStep, Only, Knows;
      StartInStep();
      events := [];
      ghost var held := prev + synth;
      for i := 0 to |table|
        invariant synth == old(synth) && InStep(down, events, held)
        invariant forall k :: 0 <= k < |table| ==>
          (table[k].0 in held <==> table[k].0 in prev || (k >= i && table[k].0 in synth))
        invariant forall k :: 0 <= k < |table| ==>
          Only(events, table[k].1) == if k < i && table[k].0 in synth then [false] else []
      {
        if table[i].0 in synth {
          assert table[i].0 !in prev;
          events := Emit(events, i, false, down, held);
          held := held - {table[i].0};
        }
      }
      InStepAgrees(down, events, held, prev);
      synth := {};
    }

    /** A button as the edge loop finds it. */
    ghost function Before(b: Button, pend: set<Button>): ButtonState
      reads this
    {
      ButtonState(b in prev, false, b in pend)
    }

    /** One button of the edge loop. */
    method Edge(cur: set<Button>, pend: set<Button>, i: nat, events: seq<Event>, ghost down: set<nat>,
                ghost held: set<Button>)
      returns (more: seq<Event>, ghost next: set<Button>)
      requires Distinct(table) && i < |table| && InStep(down, events, held)
      requires table[i].0 in held <==> table[i].0 in prev
      modifies this`synth
      ensures InStep(down, more, next)
      ensures
        var b, tap := table[i].0, IsTap(Before(table[i].0, pend), table[i].0 in cur);
        && next == (if b in cur || tap then held + {b} else held - {b})
        && synth == old(synth) + if tap then {b} else {}
      ensures forall k :: 0 <= k < |table| ==>
        Only(more, table[k].1) ==
          Only(events, table[k].1) + (if k == i then EdgeOf(Before(table[i].0, pend), table[i].0 in cur) else [])
    {
      var b := table[i].0;
      more, next := events, held;
      if b in cur && b !in prev {
        more := Emit(events, i, true, down, held);
        next := held + {b};
      } else if b !in cur && b in prev {
        more := Emit(events, i, false, down, held);
        next := held - {b};
      } else if b in pend && b !in cur {
        more := Emit(events, i, true, down, held);
        next := held + {b};
        synth := synth + {b};
      }
    }

    /** Presses, releases and latched taps of this sample. */
    method Edges(cur: set<Button>, pend: set<Button>, events0: seq<Event>, ghost down: set<nat>)
      returns (events: seq<Event>)
      requires Distinct(table) && synth == {} && InStep(down, events0, prev)
      modifies this`synth
      ensures forall b :: b in synth <==> Knows(table, b) && IsTap(Before(b, pend), b in cur)
      ensures InStep(down, events, cur + synth)
      ensures forall k :: 0 <= k < |table| ==>
        Only(events, table[k].1) == Only(events0, table[k].1) + EdgeOf(Before(table[k].0, pend), table[k].0 in cur)
    {
      hide InStep, Only, EdgeOf;
      events := events0;
      ghost var held := prev;
      for i := 0 to |table|
        invariant InStep(down, events, held)
        invariant forall k :: 0 <= k < |table| ==>
          (table[k].0 in held <==>
            if k < i then table[k].0 in cur || IsTap(Before(table[k].0, pend), table[k].0 in cur)
              else table[k].0 in prev)
        invariant forall k :: 0 <= k < i && IsTap(Before(table[k].0, pend), table[k].0 in cur) ==> table[k].0 in synth
        invariant forall b :: b in synth ==> Knows(table, b) && IsTap(Before(b, pend), b in cur)
        invariant forall k :: 0 <= k < |table| ==>
          Only(events, table[k].1) ==
            Only(events0, table[k].1) + (if k < i then EdgeOf(Before(table[k].0, pend), table[k].0 in cur) else [])
      {
        events, held := Edge(cur, pend, i, events, down, held);
      }
      InStepAgrees(down, events, held, cur + synth);
    }

    /**
     * `poll_input` for the buttons: the consumer, in step before, is in step with this sample and the new taps, and of
     * every button it sees exactly what the button's own run prescribes.
     */
    method Poll(cur: set<Button>) returns (events: seq<Event>)
      requires Valid()
      modifies this
      ensures Valid() && prev == cur && pending == {}
      ensures Alternating(old(Shown()), events) && PlayAll(old(Shown()), events) == Shown()
      ensures forall k :: 0 <= k < |table| ==>
        && Only(events, table[k].1) == ShownOf(old(StateOf(table[k].0)), table[k].0 in cur)
        && StateOf(table[k].0) == PolledState(old(StateOf(table[k].0)), table[k].0 in cur)
    {
      ghost var down := Shown();
      events := ReleaseSynthetic(down);
      var pend := pending;
      pending := {};
      events := Edges(cur, pend, events, down);
      prev := cur;
    }
  }
}
