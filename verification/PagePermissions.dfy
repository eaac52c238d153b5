/** The page permissions of a mapped module: executable pages first, everything else afterwards. */
module PagePermissions {
  import opened Bytes

  /** A program header; the load zone ends no earlier than any LOAD segment. */
  datatype Segment = Segment(load: bool, exec: bool, vaddr: u64, memsz: u64)

  /** One call: `pages` pages from page `first` on become RX or RW. */
  datatype Call = Call(first: nat, pages: nat, rx: bool)

  predicate InZone(segments: seq<Segment>, pages: nat) {
    && pages < 0x10_0000_0000_0000
    && forall i :: 0 <= i < |segments| && segments[i].load ==> segments[i].vaddr + segments[i].memsz <= 0x1000 * pages
  }

  predicate Executable(s: Segment) { s.load && s.exec }

  /** The last page the marking loop goes to; a segment that ends at 0 makes the subtraction wrap. */
  function LastPage(s: Segment): u64
    requires s.vaddr + s.memsz <= 0xFFFF_FFFF_FFFF_F000
  {
    var end := (s.vaddr + s.memsz + 0xFFF) / 0x1000;
    if end == 0 then 0xFFFF_FFFF_FFFF_FFFF else end - 1
  }

  // ---- what is marked ----

  /** The page holds a byte of the segment. */
  predicate Meets(s: Segment, pg: nat) {
    s.memsz > 0 && s.vaddr < 0x1000 * pg + 0x1000 && 0x1000 * pg < s.vaddr + s.memsz
  }

  /** An empty executable segment still marks: every page when it is at 0, its page when it is not page-aligned. */
  predicate StrayMark(s: Segment, pg: nat) {
    s.memsz == 0 && (s.vaddr == 0 || (s.vaddr % 0x1000 != 0 && pg == s.vaddr / 0x1000))
  }

  predicate Marks(s: Segment, pg: nat) { if s.memsz > 0 then Meets(s, pg) else StrayMark(s, pg) }

  /** The marking loop's bounds, decided: exactly the pages of a non-empty segment, and the strays of an empty one. */
  lemma {:induction false} LoopBounds(s: Segment, pages: nat, pg: nat)
    requires pages < 0x10_0000_0000_0000 && s.vaddr + s.memsz <= 0x1000 * pages && pg < pages
    ensures s.vaddr / 0x1000 <= pg <= LastPage(s) <==> Marks(s, pg)
  {
  }

  predicate MarkedBy(segments: seq<Segment>, n: nat, pg: nat)
    requires n <= |segments|
  {
    exists i :: 0 <= i < n && Executable(segments[i]) && Marks(segments[i], pg)
  }

  predicate MetByCode(segments: seq<Segment>, pg: nat) {
    exists i :: 0 <= i < |segments| && Executable(segments[i]) && Meets(segments[i], pg)
  }

  /** One segment's pages. */
  method MarkSegment(x: array<bool>, s: Segment)
    requires x.Length < 0x10_0000_0000_0000 && s.vaddr + s.memsz <= 0x1000 * x.Length
    modifies x
    ensures forall p: nat :: p < x.Length ==> x[p] == (old(x[p]) || Marks(s, p))
  {
    var pg: nat, last := s.vaddr / 0x1000, LastPage(s);
    ghost var first := pg;
    while pg <= last && pg < x.Length
      invariant first <= pg
      invariant forall p: nat :: p < x.Length ==> x[p] == (old(x[p]) || (first <= p <= last && p < pg))
    {
      x[pg] := true;
      pg := pg + 1;
    }
    forall p: nat | p < x.Length ensures x[p] == (old(x[p]) || Marks(s, p)) {
      LoopBounds(s, x.Length, p);
    }
  }

  /** The page map. */
  method MarkAll(segments: seq<Segment>, pages: nat) returns (x: array<bool>)
    requires InZone(segments, pages)
    ensures fresh(x) && x.Length == pages
    ensures forall p: nat :: p < pages ==> x[p] == MarkedBy(segments, |segments|, p)
  {
    x := new bool[pages](_ => false);
    for i := 0 to |segments|
      invariant forall p: nat :: p < pages ==> x[p] == MarkedBy(segments, i, p)
    {
      ghost var before := x[..];
      if segments[i].load && segments[i].exec {
        MarkSegment(x, segments[i]);
      }
      forall p: nat | p < pages ensures x[p] == MarkedBy(segments, i + 1, p) {
        MarkedStep(segments, i, p);
        assert before[p] == MarkedBy(segments, i, p);
      }
    }
  }

  lemma {:induction false} MarkedStep(segments: seq<Segment>, n: nat, pg: nat)
    requires n < |segments|
    ensures MarkedBy(segments, n + 1, pg) <==>
      MarkedBy(segments, n, pg) || (Executable(segments[n]) && Marks(segments[n], pg))
  {
    if MarkedBy(segments, n, pg) {
      var i :| 0 <= i < n && Executable(segments[i]) && Marks(segments[i], pg);
      assert 0 <= i < n + 1;
    }
  }

  // ---- the calls ----

  predicate Covers(c: Call, pg: nat) { c.first <= pg < c.first + c.pages }

  /** The calls of one pass, so far: ascending runs of wanted pages that leave no wanted page below `pg` out. */
  ghost predicate Runs(calls: seq<Call>, x: seq<bool>, want: bool, pg: nat) {
    && pg <= |x|
    && (forall i :: 0 <= i < |calls| ==>
      calls[i].rx == want && calls[i].pages > 0 && calls[i].first + calls[i].pages <= pg)
    && (forall i, j :: 0 <= i < j < |calls| ==> calls[i].first + calls[i].pages <= calls[j].first)
    && (forall i, p: nat {:trigger Covers(calls[i], p)} :: 0 <= i < |calls| && Covers(calls[i], p) ==>
      p < |x| && x[p] == want)
    && (forall p: nat :: p < pg && x[p] == want ==> exists i :: 0 <= i < |calls| && Covers(calls[i], p))
  }

  lemma {:induction false} RunsSkip(calls: seq<Call>, x: seq<bool>, want: bool, pg: nat)
    requires Runs(calls, x, want, pg) && pg < |x| && x[pg] != want
    ensures Runs(calls, x, want, pg + 1)
  {
  }

  lemma {:induction false} RunsExtend(calls: seq<Call>, x: seq<bool>, want: bool, pg: nat, end: nat)
    requires Runs(calls, x, want, pg) && pg < end <= |x| && forall p :: pg <= p < end ==> x[p] == want
    ensures Runs(calls + [Call(pg, end - pg, want)], x, want, end)
  {
    var c, more := Call(pg, end - pg, want), calls + [Call(pg, end - pg, want)];
    forall p: nat | p < end && x[p] == want ensures exists i :: 0 <= i < |more| && Covers(more[i], p) {
      if p < pg {
        var i :| 0 <= i < |calls| && Covers(calls[i], p);
        assert more[i] == calls[i];
      } else {
        assert Covers(more[|calls|], p);
      }
    }
  }

  /** One pass over the page map. */
  method Pass(x: array<bool>, want: bool) returns (calls: seq<Call>)
    ensures Runs(calls, x[..], want, x.Length)
  {
    calls := [];
    var pg := 0;
    while pg < x.Length
      invariant Runs(calls, x[..], want, pg)
    {
      if x[pg] != want {
        RunsSkip(calls, x[..], want, pg);
        pg := pg + 1;
      } else {
        var end := pg;
        while end < x.Length && x[end] == want
          invariant pg <= end <= x.Length && forall p :: pg <= p < end ==> x[p] == want
        {
          end := end + 1;
        }
        RunsExtend(calls, x[..], want, pg, end);
        calls := calls + [Call(pg, end - pg, want)];
        pg := end;
      }
    }
  }

  /** Exactly one call speaks about the page, and it says `rx`. */
  ghost predicate CoveredOnce(calls: seq<Call>, pg: nat, rx: bool) {
    exists i :: 0 <= i < |calls| && Covers(calls[i], pg) && calls[i].rx == rx
      && forall j :: 0 <= j < |calls| && Covers(calls[j], pg) ==> j == i
  }

  /** All RX calls come before all RW calls. */
  predicate CodeFirst(calls: seq<Call>) { forall i, j :: 0 <= i < j < |calls| && calls[j].rx ==> calls[i].rx }

  lemma {:induction false} OneRun(calls: seq<Call>, x: seq<bool>, want: bool, i: nat, j: nat, pg: nat)
    requires Runs(calls, x, want, |x|) && i < |calls| && j < |calls| && Covers(calls[i], pg) && Covers(calls[j], pg)
    ensures i == j
  {
  }

  lemma {:induction false} BothPasses(code: seq<Call>, data: seq<Call>, x: seq<bool>, pg: nat)
    requires Runs(code, x, true, |x|) && Runs(data, x, false, |x|) && pg < |x|
    ensures CoveredOnce(code + data, pg, x[pg])
  {
    var calls := code + data;
    var k: nat;
    if x[pg] {
      k :| k < |code| && Covers(code[k], pg);
    } else {
      var d: nat :| d < |data| && Covers(data[d], pg);
      k := |code| + d;
      assert calls[k] == data[d];
    }
    forall j | 0 <= j < |calls| && Covers(calls[j], pg) ensures j == k {
      if j < |code| {
        assert calls[j] == code[j];
        if x[pg] {
          OneRun(code, x, true, j, k, pg);
        }
      } else {
        assert calls[j] == data[j - |code|];
        if !x[pg] {
          OneRun(data, x, false, j - |code|, k - |code|, pg);
        }
      }
    }
    assert Covers(calls[k], pg);
  }

  /**
   * `so_finalize`: the calls cover every page of the zone exactly once and no other, RX exactly where an executable
   * segment marked it, and all RX calls come first.
   */
  method Finalize(segments: seq<Segment>, pages: nat) returns (calls: seq<Call>)
    requires InZone(segments, pages)
    ensures CodeFirst(calls)
    ensures forall pg: nat :: pg < pages ==> CoveredOnce(calls, pg, MarkedBy(segments, |segments|, pg))
    ensures forall i, pg: nat :: 0 <= i < |calls| && Covers(calls[i], pg) ==> pg < pages
  {
    var x := MarkAll(segments, pages);
    var code := Pass(x, true);
    var data := Pass(x, false);
    forall pg: nat | pg < pages ensures CoveredOnce(code + data, pg, MarkedBy(segments, |segments|, pg)) {
      BothPasses(code, data, x[..], pg);
    }
    return code + data;
  }

  // ---- which pages are executable ----

  /** The empty executable segments do no harm: what they mark holds code anyway. */
  predicate StraysHarmless(segments: seq<Segment>, pages: nat) {
    forall i :: 0 <= i < |segments| && Executable(segments[i]) && segments[i].memsz == 0 ==>
      if segments[i].vaddr == 0 then forall pg: nat :: pg < pages ==> MetByCode(segments, pg)
      else segments[i].vaddr % 0x1000 != 0 ==> MetByCode(segments, segments[i].vaddr / 0x1000)
  }

  lemma {:induction false} MetIsMarked(segments: seq<Segment>, pg: nat)
    ensures MetByCode(segments, pg) ==> MarkedBy(segments, |segments|, pg)
  {
    if i :| 0 <= i < |segments| && Executable(segments[i]) && Meets(segments[i], pg) {
      assert Marks(segments[i], pg);
    }
  }

  /**
   * A page is RX exactly when it holds a byte of an executable segment, if and only if no empty executable segment
   * at address 0, or off a page boundary, falls where there is no code.
   */
  lemma {:induction false} ExactlyCode(segments: seq<Segment>, pages: nat)
    requires InZone(segments, pages)
    ensures StraysHarmless(segments, pages) <==>
      forall pg: nat :: pg < pages ==> (MarkedBy(segments, |segments|, pg) <==> MetByCode(segments, pg))
  {
    if StraysHarmless(segments, pages) {
      forall pg: nat | pg < pages ensures MarkedBy(segments, |segments|, pg) <==> MetByCode(segments, pg) {
        MetIsMarked(segments, pg);
      }
    }
    if forall pg: nat :: pg < pages ==> (MarkedBy(segments, |segments|, pg) <==> MetByCode(segments, pg)) {
      forall i | 0 <= i < |segments| && Executable(segments[i]) && segments[i].memsz == 0
        ensures if segments[i].vaddr == 0 then forall pg: nat :: pg < pages ==> MetByCode(segments, pg)
                else segments[i].vaddr % 0x1000 != 0 ==> MetByCode(segments, segments[i].vaddr / 0x1000)
      {
        forall pg: nat | pg < pages && StrayMark(segments[i], pg) ensures MetByCode(segments, pg) {
          assert Marks(segments[i], pg);
        }
        assert segments[i].vaddr % 0x1000 != 0 ==> StrayMark(segments[i], segments[i].vaddr / 0x1000);
      }
    }
  }

  /** An empty executable segment at address 0 beside one page of data makes that data page executable. */
  lemma {:induction false} StrayExample()
    ensures
      var segments := [Segment(true, false, 0, 0x1000), Segment(true, true, 0, 0)];
      InZone(segments, 1) && MarkedBy(segments, 2, 0) && !MetByCode(segments, 0)
  {
    var segments := [Segment(true, false, 0, 0x1000), Segment(true, true, 0, 0)];
    assert Executable(segments[1]) && Marks(segments[1], 0);
  }

  /** And one in the middle of a page makes that page executable, with no code in the file at all. */
  lemma {:induction false} StrayInsideExample()
    ensures
      var segments := [Segment(true, false, 0, 0x2000), Segment(true, true, 0x1800, 0)];
      InZone(segments, 2) && MarkedBy(segments, 2, 1) && forall pg :: !MetByCode(segments, pg)
  {
    var segments := [Segment(true, false, 0, 0x2000), Segment(true, true, 0x1800, 0)];
    assert Executable(segments[1]) && Marks(segments[1], 1);
  }
}
