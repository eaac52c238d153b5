/** Touch events from sampled finger lists. */
module TouchInput {
  import opened Bytes

  /** A finger of one sample; its position is left unscaled. */
  datatype Touch = Touch(id: u32, x: u32, y: u32)

  /** Android's actions, with the pointer and the fingers that an event carries. */
  datatype Event =
    | Down(all: seq<Touch>)
    | Up
    | PointerUp(id: u32)
    | PointerDown(id: u32, all: seq<Touch>)
    | Move(all: seq<Touch>)

  predicate Distinct(s: seq<Touch>) { forall i, j :: 0 <= i < j < |s| ==> s[i].id != s[j].id }

  predicate Has(s: seq<Touch>, id: u32) { exists i :: 0 <= i < |s| && s[i].id == id }

  /** The fingers of a sample, by identity. */
  function Fingers(s: seq<Touch>): (m: map<u32, Touch>)
    ensures forall id :: id in m <==> Has(s, id)
    ensures forall id :: id in m ==> m[id] in s && m[id].id == id
  {
    map i | 0 <= i < |s| :: s[i].id := FirstWith(s, s[i].id, 0)
  }

  function FirstWith(s: seq<Touch>, id: u32, i: nat): (t: Touch)
    requires i <= |s| && exists j :: i <= j < |s| && s[j].id == id
    ensures t in s && t.id == id
    decreases |s| - i, id
  {
    if s[i].id == id then s[i] else FirstWith(s, id, i + 1)
  }

  // ---- the consumer ----

  /** The fingers that are down, with their last positions, after one event. */
  function Play(m: map<u32, Touch>, e: Event): map<u32, Touch> {
    match e
    case Down(all) => Fingers(all)
    case Up => map[]
    case PointerUp(id) => m - {id}
    case PointerDown(id, all) => if id in Fingers(all) then m[id := Fingers(all)[id]] else m
    case Move(all) => map id | id in m :: if id in Fingers(all) then Fingers(all)[id] else m[id]
  }

  /** The event can be replayed by a consumer that sees these fingers down. */
  predicate Sensible(m: map<u32, Touch>, e: Event) {
    match e
    case Down(all) => m == map[] && all != []
    case Up => exists id :: id in m && m.Keys == {id}
    case PointerUp(id) => id in m
    case PointerDown(id, all) => id !in m && Has(all, id)
    case Move(all) => m.Keys == Fingers(all).Keys
  }

  /** The event is the one the protocol has for the change: the first finger comes with Down, the last goes with Up. */
  predicate Strict(m: map<u32, Touch>, e: Event) {
    && Sensible(m, e)
    && (e.PointerUp? ==> m - {e.id} != map[])
    && (e.PointerDown? ==> m != map[])
  }

  function PlayAll(m: map<u32, Touch>, events: seq<Event>): map<u32, Touch> {
    if events == [] then m else Play(PlayAll(m, events[..|events| - 1]), events[|events| - 1])
  }

  predicate AllSensible(m: map<u32, Touch>, events: seq<Event>) {
    events == [] ||
    (AllSensible(m, events[..|events| - 1]) && Sensible(PlayAll(m, events[..|events| - 1]), events[|events| - 1]))
  }

  predicate AllStrict(m: map<u32, Touch>, events: seq<Event>) {
    events == [] ||
    (AllStrict(m, events[..|events| - 1]) && Strict(PlayAll(m, events[..|events| - 1]), events[|events| - 1]))
  }

  lemma {:induction false} OneMore(m: map<u32, Touch>, events: seq<Event>, e: Event)
    requires AllSensible(m, events) && Sensible(PlayAll(m, events), e)
    ensures AllSensible(m, events + [e]) && PlayAll(m, events + [e]) == Play(PlayAll(m, events), e)
    ensures AllStrict(m, events + [e]) <==> AllStrict(m, events) && Strict(PlayAll(m, events), e)
  {
    var more := events + [e];
    assert more[..|more| - 1] == events;
  }

  // ---- one poll ----

  /** The search loops. */
  method Find(s: seq<Touch>, id: u32) returns (present: bool)
    ensures present <==> Has(s, id)
  {
    for i := 0 to |s|
      invariant forall j :: 0 <= j < i ==> s[j].id != id
    {
      if s[i].id == id {
        return true;
      }
    }
    return false;
  }

  /** Still shown when the first `p` fingers of the sample before have been compared with this one. */
  predicate Stays(prev: seq<Touch>, sample: seq<Touch>, p: nat, id: u32) {
    exists i :: 0 <= i < |prev| && prev[i].id == id && (i >= p || Has(sample, id))
  }

  ghost predicate Removing(m: map<u32, Touch>, prev: seq<Touch>, sample: seq<Touch>, p: nat) {
    && (forall id :: id in m <==> Stays(prev, sample, p, id))
    && forall id :: id in m ==> Has(prev, id) && m[id] == Fingers(prev)[id]
  }

  lemma {:induction false} KeepFinger(m: map<u32, Touch>, prev: seq<Touch>, sample: seq<Touch>, p: nat)
    requires Distinct(prev) && p < |prev| && Removing(m, prev, sample, p) && Has(sample, prev[p].id)
    ensures Removing(m, prev, sample, p + 1)
  {
    forall id ensures Stays(prev, sample, p + 1, id) <==> Stays(prev, sample, p, id) {
    }
  }

  lemma {:induction false} StaysStep(prev: seq<Touch>, sample: seq<Touch>, p: nat, id: u32)
    requires Distinct(prev) && p < |prev| && !Has(sample, prev[p].id)
    ensures Stays(prev, sample, p + 1, id) <==> Stays(prev, sample, p, id) && id != prev[p].id
    ensures Stays(prev, sample, p, prev[p].id)
  {
    if Stays(prev, sample, p, id) && id != prev[p].id {
      var i :| 0 <= i < |prev| && prev[i].id == id && (i >= p || Has(sample, id));
      assert i != p;
    }
  }

  lemma {:induction false} DropFinger(m: map<u32, Touch>, prev: seq<Touch>, sample: seq<Touch>, p: nat)
    requires Distinct(prev) && p < |prev| && Removing(m, prev, sample, p) && !Has(sample, prev[p].id)
    ensures prev[p].id in m && Removing(m - {prev[p].id}, prev, sample, p + 1)
    ensures |prev| == 1 ==> m.Keys == {prev[p].id}
  {
    hide Stays, Distinct, Has, Fingers;
    forall id ensures id in m - {prev[p].id} <==> Stays(prev, sample, p + 1, id) {
      StaysStep(prev, sample, p, id);
    }
    StaysStep(prev, sample, p, prev[p].id);
    if |prev| == 1 {
      forall id ensures Stays(prev, sample, p, id) <==> id == prev[p].id {
        OnlyFinger(prev, sample, id);
      }
    }
  }

  lemma {:induction false} OnlyFinger(prev: seq<Touch>, sample: seq<Touch>, id: u32)
    requires |prev| == 1
    ensures Stays(prev, sample, 0, id) <==> id == prev[0].id
  {
  }

  /** The event for a finger that is gone. */
  function Leaving(prev: seq<Touch>, p: nat): Event
    requires p < |prev|
  {
    if |prev| == 1 then Up else PointerUp(prev[p].id)
  }

  lemma {:induction false} LeavingFits(m: map<u32, Touch>, prev: seq<Touch>, sample: seq<Touch>, p: nat)
    requires Distinct(prev) && p < |prev| && Removing(m, prev, sample, p) && !Has(sample, prev[p].id)
    ensures
      var e := Leaving(prev, p);
      && Sensible(m, e) && Removing(Play(m, e), prev, sample, p + 1) && m != map[]
      && (Strict(m, e) <==> |prev| == 1 || Play(m, e) != map[])
  {
    hide Removing, Distinct, Has;
    DropFinger(m, prev, sample, p);
    if |prev| == 1 {
      assert m - {prev[p].id} == map[];
    }
  }

  lemma {:induction false} NothingCompared(prev: seq<Touch>, sample: seq<Touch>)
    ensures Removing(Fingers(prev), prev, sample, 0) && (prev != [] ==> Fingers(prev) != map[])
  {
    assert prev != [] ==> Has(prev, prev[0].id);
  }

  /** After the first `n` fingers of the new sample: the old ones that stay, and the new ones so far. */
  ghost predicate Adding(m: map<u32, Touch>, prev: seq<Touch>, sample: seq<Touch>, n: nat) {
    && (forall id :: id in m <==> (Has(prev, id) && Has(sample, id)) || Early(sample, n, id))
    && forall id :: id in m ==> m[id].id == id
  }

  predicate Early(sample: seq<Touch>, n: nat, id: u32) { exists i :: 0 <= i < n && i < |sample| && sample[i].id == id }

  lemma {:induction false} EarlyStep(sample: seq<Touch>, n: nat, id: u32)
    requires n < |sample|
    ensures Early(sample, n + 1, id) <==> Early(sample, n, id) || id == sample[n].id
  {
    if Early(sample, n, id) {
      var i :| 0 <= i < n && i < |sample| && sample[i].id == id;
      assert 0 <= i < n + 1;
    }
    if id == sample[n].id {
      assert 0 <= n < n + 1;
    }
  }

  lemma {:induction false} NotEarly(sample: seq<Touch>, n: nat)
    requires Distinct(sample) && n < |sample|
    ensures !Early(sample, n, sample[n].id) && Has(sample, sample[n].id)
  {
  }

  lemma {:induction false} AddFinger(m: map<u32, Touch>, prev: seq<Touch>, sample: seq<Touch>, n: nat)
    requires Distinct(sample) && n < |sample| && Adding(m, prev, sample, n)
    ensures Has(sample, sample[n].id)
    ensures Has(prev, sample[n].id) ==> Adding(m, prev, sample, n + 1)
    ensures !Has(prev, sample[n].id) ==>
      sample[n].id !in m && Adding(m[sample[n].id := Fingers(sample)[sample[n].id]], prev, sample, n + 1)
  {
    hide Early, Distinct, Has;
    NotEarly(sample, n);
    forall id ensures Early(sample, n + 1, id) <==> Early(sample, n, id) || id == sample[n].id {
      EarlyStep(sample, n, id);
    }
  }

  lemma {:induction false} AllAdded(m: map<u32, Touch>, prev: seq<Touch>, sample: seq<Touch>)
    requires Adding(m, prev, sample, |sample|)
    ensures m.Keys == Fingers(sample).Keys && Play(m, Move(sample)) == Fingers(sample)
  {
    forall id ensures id in m <==> Has(sample, id) {
      if Has(sample, id) {
        assert Early(sample, |sample|, id);
      }
    }
  }

  lemma {:induction false} AllCompared(m: map<u32, Touch>, prev: seq<Touch>, sample: seq<Touch>)
    requires Removing(m, prev, sample, |prev|)
    ensures Adding(m, prev, sample, 0)
    ensures sample == [] ==> m == map[]
  {
    forall id ensures Stays(prev, sample, |prev|, id) <==> Has(prev, id) && Has(sample, id) {
    }
  }

  /** The last sample, kept from poll to poll. */
  class TouchPoll {
    var prev: seq<Touch>

    ghost predicate Valid()
      reads this
    {
      Distinct(prev)
    }

    constructor ()
      ensures Valid() && prev == []
    {
      prev := [];
    }

    /** Reports the fingers that are gone. */
    method Removed(sample: seq<Touch>) returns (events: seq<Event>)
      requires Valid()
      ensures AllSensible(Fingers(prev), events)
      ensures Removing(PlayAll(Fingers(prev), events), prev, sample, |prev|)
      ensures Up in events <==> |prev| == 1 && !Has(sample, prev[0].id)
      ensures prev != [] ==>
        (AllStrict(Fingers(prev), events) <==> |prev| == 1 || PlayAll(Fingers(prev), events) != map[])
    {
      hide Removing, Sensible, Strict, Play, Fingers, Has;
      events := [];
      ghost var start := Fingers(prev);
      NothingCompared(prev, sample);
      for p := 0 to |prev|
        invariant AllSensible(start, events) && Removing(PlayAll(start, events), prev, sample, p)
        invariant Up in events <==> p == 1 && |prev| == 1 && !Has(sample, prev[0].id)
        invariant prev != [] ==> (AllStrict(start, events) <==> |prev| == 1 || PlayAll(start, events) != map[])
      {
        ghost var m := PlayAll(start, events);
        var present := Find(sample, prev[p].id);
        if present {
          KeepFinger(m, prev, sample, p);
        } else {
          LeavingFits(m, prev, sample, p);
          OneMore(start, events, Leaving(prev, p));
          events := events + [Leaving(prev, p)];
        }
      }
    }

    /** Reports the fingers that are new; with none before, the first event has told them all. */
    method Added(sample: seq<Touch>, events0: seq<Event>, ghost start: map<u32, Touch>) returns (events: seq<Event>)
      requires Valid() && Distinct(sample) && prev != []
      requires AllSensible(start, events0) && Adding(PlayAll(start, events0), prev, sample, 0)
      ensures AllSensible(start, events) && Adding(PlayAll(start, events), prev, sample, |sample|)
      ensures Up in events <==> Up in events0
      ensures sample != [] ==>
        (AllStrict(start, events) <==> AllStrict(start, events0) && PlayAll(start, events0) != map[])
    {
      events := events0;
      ghost var m0 := PlayAll(start, events0);
      for n := 0 to |sample|
        invariant AllSensible(start, events) && Adding(PlayAll(start, events), prev, sample, n)
        invariant Up in events <==> Up in events0
        invariant m0 != map[] ==> PlayAll(start, events) != map[]
        invariant AllStrict(start, events) <==> AllStrict(start, events0) && (n == 0 || m0 != map[])
        invariant n == 0 ==> events == events0
      {
        var present := Find(prev, sample[n].id);
        AddFinger(PlayAll(start, events), prev, sample, n);
        if !present {
          OneMore(start, events, PointerDown(sample[n].id, sample));
          events := events + [PointerDown(sample[n].id, sample)];
        }
      }
    }

    /**
     * `poll_input` for the fingers; a failed or empty sample is the empty list. A consumer that had the fingers of
     * the sample before has those of this one after the events, positions included. The events are the ones the
     * protocol has exactly when the samples are gentle.
     */
    method Poll(sample: seq<Touch>) returns (events: seq<Event>)
      requires Valid() && Distinct(sample)
      modifies this
      ensures Valid() && prev == sample
      ensures AllSensible(Fingers(old(prev)), events) && PlayAll(Fingers(old(prev)), events) == Fingers(sample)
      ensures AllStrict(Fingers(old(prev)), events) <==> Gentle(old(prev), sample)
      ensures Up in events <==> |old(prev)| == 1 && !Has(sample, old(prev)[0].id)
    {
      ghost var start := Fingers(prev);
      if prev == [] {
        assert start == map[];
        events := [];
        if sample != [] {
          OneMore(start, events, Down(sample));
          events := [Down(sample)];
        }
      } else {
        events := Removed(sample);
        ghost var mid := PlayAll(start, events);
        AllCompared(mid, prev, sample);
        SomeStay(mid, prev, sample);
        if sample != [] {
          events := Added(sample, events, start);
          AllAdded(PlayAll(start, events), prev, sample);
          OneMore(start, events, Move(sample));
          events := events + [Move(sample)];
        }
      }
      prev := sample;
    }
  }

  /** The samples for which the events keep to the protocol: nothing before, or a finger that stays, or one lifted. */
  predicate Gentle(prev: seq<Touch>, sample: seq<Touch>) {
    prev == [] || Shared(prev, sample) || (|prev| == 1 && sample == [])
  }

  predicate Shared(prev: seq<Touch>, sample: seq<Touch>) {
    exists i :: 0 <= i < |prev| && Has(sample, prev[i].id)
  }

  lemma {:induction false} SomeStay(m: map<u32, Touch>, prev: seq<Touch>, sample: seq<Touch>)
    requires Removing(m, prev, sample, |prev|)
    ensures m != map[] <==> Shared(prev, sample)
  {
    if m != map[] {
      var id :| id in m;
      assert Stays(prev, sample, |prev|, id);
    }
    if i :| 0 <= i < |prev| && Has(sample, prev[i].id) {
      assert Stays(prev, sample, |prev|, prev[i].id);
    }
  }

  /** The only finger is replaced between two polls: it goes with Up, and the new one comes as a further pointer. */
  lemma {:induction false} ReplacedFinger(a: Touch, b: Touch)
    requires a.id != b.id
    ensures !Gentle([a], [b])
    ensures !Strict(Play(Fingers([a]), Up), PointerDown(b.id, [b]))
  {
    assert [b][0] == b;
  }

  /** Two fingers are lifted between two polls: the last one goes as a further pointer, and Up is never sent. */
  lemma {:induction false} BothLifted(a: Touch, b: Touch)
    requires a.id != b.id
    ensures !Gentle([a, b], [])
    ensures !Strict(Play(Fingers([a, b]), PointerUp(a.id)), PointerUp(b.id))
  {
    var m := Play(Fingers([a, b]), PointerUp(a.id));
    forall id | id in m ensures id == b.id {
      assert Has([a, b], id);
    }
    assert m - {b.id} == map[];
  }
}
