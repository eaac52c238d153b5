/**
 * The phase-continuous linear resampler of the audio player. The phase counts 48000ths of an input frame, so that
 * one output frame advances it by the source rate and one input frame takes 48000 from it.
 */
module Resampler {
  import opened Arith

  type int16 = x: int | -0x8000 <= x < 0x8000

  datatype Frame = Frame(l: int16, r: int16)

  datatype State = State(phase: nat, prev: Frame)

  /** Division that truncates toward zero, as the conversion to an integer does. */
  function Trunc(a: int, b: nat): int
    requires b > 0
  {
    if a >= 0 then a / b else -((-a) / b)
  }

  /** The point `t` 48000ths of the way from `p` to `c`, truncated. */
  function Mix(p: int16, c: int16, t: nat): (m: int16)
    requires t < 48000
    ensures p <= m <= c || c <= m <= p
  {
    MixBetween(p, c, t);
    Trunc(p * 48000 + (c - p) * t, 48000)
  }

  lemma {:induction false} ProductBetween(d: int, t: nat)
    requires t < 48000
    ensures 0 <= d ==> 0 <= d * t <= d * 48000
    ensures d <= 0 ==> d * 48000 <= d * t <= 0
  {
  }

  lemma {:induction false} TruncBetween(a: int, lo: int, hi: int)
    requires lo * 48000 <= a <= hi * 48000
    ensures lo <= Trunc(a, 48000) <= hi
  {
  }

  /** Interpolation never leaves the interval between the two samples. */
  lemma {:induction false} MixBetween(p: int16, c: int16, t: nat)
    requires t < 48000
    ensures
      var m := Trunc(p * 48000 + (c - p) * t, 48000);
      p <= m <= c || c <= m <= p
  {
    ProductBetween(c - p, t);
    if p <= c {
      TruncBetween(p * 48000 + (c - p) * t, p, c);
    } else {
      TruncBetween(p * 48000 + (c - p) * t, c, p);
    }
  }

  lemma {:induction false} TruncNear(a: int)
    ensures -48000 < 48000 * Trunc(a, 48000) - a < 48000
  {
  }

  lemma {:induction false} Weights(p: int, c: int, t: nat)
    ensures p * 48000 + (c - p) * t == p * (48000 - t) + c * t
  {
  }

  /** The value lies less than one unit off the line from `p` (at `t` = 0) to `c` (at `t` = 48000). */
  predicate OnLine(m: int16, p: int16, c: int16, t: nat) {
    -48000 < 48000 * m - (p * (48000 - t) + c * t) < 48000
  }

  /** Interpolation starts at the earlier sample and follows the line to the later one. */
  lemma {:induction false} MixFollows(p: int16, c: int16, t: nat)
    requires t < 48000
    ensures Mix(p, c, 0) == p && OnLine(Mix(p, c, t), p, c, t)
  {
    hide Trunc;
    TruncNear(p * 48000 + (c - p) * t);
    TruncNear(p * 48000);
    Weights(p, c, t);
  }

  function MixFrames(p: Frame, c: Frame, t: nat): Frame
    requires t < 48000
  {
    Frame(Mix(p.l, c.l, t), Mix(p.r, c.r, t))
  }

  // ---- the conversion as a function of the whole input ----

  /** Position of output frame `k` in 48000ths of an input frame. */
  function Position(phase: nat, rate: nat, k: nat): nat { phase + k * rate }

  lemma {:induction false} NextPosition(phase: nat, rate: nat, k: nat)
    ensures Position(phase, rate, k + 1) == Position(phase, rate, k) + rate
  {
  }

  /** The frame before input frame `i`. */
  function Before(prev: Frame, input: seq<Frame>, i: nat): Frame
    requires i <= |input|
  {
    if i == 0 then prev else input[i - 1]
  }

  /** The smallest number of output frames that reaches the end of `n` input frames. */
  function Count(phase: nat, rate: nat, n: nat): nat
    requires rate > 0
  {
    if n * 48000 <= phase then 0 else (n * 48000 - phase + rate - 1) / rate
  }

  lemma {:induction false} CeilDivides(a: nat, rate: nat, k: nat)
    requires rate > 0
    ensures k < (a + rate - 1) / rate <==> k * rate < a
  {
    var q := (a + rate - 1) / rate;
    Divided(a + rate - 1, rate);
    NextMultiple(k, rate);
    Monotone(k + 1, q, rate);
    Monotone(q, k, rate);
  }

  /** Output frame `k` exists exactly when it lies before the end of the input. */
  lemma {:induction false} CountCovers(phase: nat, rate: nat, n: nat, k: nat)
    requires rate > 0
    ensures k < Count(phase, rate, n) <==> Position(phase, rate, k) < n * 48000
  {
    if n * 48000 > phase {
      CeilDivides(n * 48000 - phase, rate, k);
    }
  }

  /** Output frame `k`: interpolated at its position in the input. */
  function Sample(s: State, rate: nat, input: seq<Frame>, k: nat): Frame
    requires rate > 0 && k < Count(s.phase, rate, |input|)
  {
    CountCovers(s.phase, rate, |input|, k);
    var at := Position(s.phase, rate, k);
    MixFrames(Before(s.prev, input, at / 48000), input[at / 48000], at % 48000)
  }

  function Output(s: State, rate: nat, input: seq<Frame>): (out: seq<Frame>)
    requires rate > 0
    ensures |out| == Count(s.phase, rate, |input|)
  {
    seq(Count(s.phase, rate, |input|), k requires 0 <= k < Count(s.phase, rate, |input|) => Sample(s, rate, input, k))
  }

  /** The state that is carried to the next buffer. */
  function After(s: State, rate: nat, input: seq<Frame>): State
    requires rate > 0
  {
    var n := Count(s.phase, rate, |input|);
    CountCovers(s.phase, rate, |input|, n);
    State(Position(s.phase, rate, n) - |input| * 48000, Before(s.prev, input, |input|))
  }

  // ---- chunk invariance ----

  lemma {:induction false} CountUnique(phase: nat, rate: nat, n: nat, m: nat)
    requires rate > 0
    requires Position(phase, rate, m) >= n * 48000 && (m > 0 ==> Position(phase, rate, m - 1) < n * 48000)
    ensures Count(phase, rate, n) == m
  {
    CountCovers(phase, rate, n, m);
    if m > 0 {
      CountCovers(phase, rate, n, m - 1);
    }
  }

  lemma {:induction false} PositionSplit(phase: nat, rate: nat, k: nat, j: nat)
    ensures Position(phase, rate, k + j) == Position(phase, rate, k) + j * rate
  {
  }

  lemma {:induction false} CountSplit(s: State, rate: nat, a: seq<Frame>, n: nat)
    requires rate > 0
    ensures
      Count(s.phase, rate, |a| + n) == Count(s.phase, rate, |a|) + Count(After(s, rate, a).phase, rate, n)
  {
    var m, t := Count(s.phase, rate, |a|), After(s, rate, a);
    var j := Count(t.phase, rate, n);
    CountCovers(t.phase, rate, n, j);
    PositionSplit(s.phase, rate, m, j);
    if j > 0 {
      CountCovers(t.phase, rate, n, j - 1);
      PositionSplit(s.phase, rate, m, j - 1);
    } else if m > 0 {
      CountCovers(s.phase, rate, |a|, m - 1);
    }
    CountUnique(s.phase, rate, |a| + n, m + j);
  }

  lemma {:induction false} SampleSplitHead(s: State, rate: nat, a: seq<Frame>, b: seq<Frame>, k: nat)
    requires rate > 0 && k < Count(s.phase, rate, |a|)
    ensures k < Count(s.phase, rate, |a + b|) && Sample(s, rate, a + b, k) == Sample(s, rate, a, k)
  {
    CountCovers(s.phase, rate, |a|, k);
    CountCovers(s.phase, rate, |a + b|, k);
  }

  lemma {:induction false} SampleSplitTail(s: State, rate: nat, a: seq<Frame>, b: seq<Frame>, j: nat)
    requires rate > 0 && j < Count(After(s, rate, a).phase, rate, |b|)
    ensures
      var k := Count(s.phase, rate, |a|) + j;
      && k < Count(s.phase, rate, |a + b|)
      && Sample(s, rate, a + b, k) == Sample(After(s, rate, a), rate, b, j)
  {
    var m, t := Count(s.phase, rate, |a|), After(s, rate, a);
    CountSplit(s, rate, a, |b|);
    CountCovers(t.phase, rate, |b|, j);
    PositionSplit(s.phase, rate, m, j);
    var here, there := Position(t.phase, rate, j), Position(s.phase, rate, m + j);
    assert there == here + |a| * 48000;
    assert there / 48000 == here / 48000 + |a| && there % 48000 == here % 48000;
    assert (a + b)[there / 48000] == b[here / 48000];
    assert Before(s.prev, a + b, there / 48000) == Before(t.prev, b, here / 48000);
  }

  /** Converting in two buffers is converting at once: same frames, same state afterwards. */
  lemma {:induction false} OutputSplit(s: State, rate: nat, a: seq<Frame>, b: seq<Frame>)
    requires rate > 0
    ensures Output(s, rate, a + b) == Output(s, rate, a) + Output(After(s, rate, a), rate, b)
    ensures After(s, rate, a + b) == After(After(s, rate, a), rate, b)
  {
    var m, t := Count(s.phase, rate, |a|), After(s, rate, a);
    CountSplit(s, rate, a, |b|);
    var whole, parts := Output(s, rate, a + b), Output(s, rate, a) + Output(t, rate, b);
    forall k | 0 <= k < |whole| ensures whole[k] == parts[k] {
      if k < m {
        SampleSplitHead(s, rate, a, b, k);
      } else {
        SampleSplitTail(s, rate, a, b, k - m);
      }
    }
    PositionSplit(s.phase, rate, m, Count(t.phase, rate, |b|));
  }

  /** Buffer after buffer, each from the state the one before left. */
  function InBuffers(s: State, rate: nat, buffers: seq<seq<Frame>>): seq<Frame>
    requires rate > 0
    decreases |buffers|
  {
    if buffers == [] then []
    else Output(s, rate, buffers[0]) + InBuffers(After(s, rate, buffers[0]), rate, buffers[1..])
  }

  function Joined(buffers: seq<seq<Frame>>): seq<Frame> {
    if buffers == [] then [] else buffers[0] + Joined(buffers[1..])
  }

  /** However the input is cut into buffers, the output is the same. */
  lemma {:induction false} ChunkInvariance(s: State, rate: nat, buffers: seq<seq<Frame>>)
    requires rate > 0
    ensures InBuffers(s, rate, buffers) == Output(s, rate, Joined(buffers))
    decreases |buffers|
  {
    if buffers != [] {
      OutputSplit(s, rate, buffers[0], Joined(buffers[1..]));
      ChunkInvariance(After(s, rate, buffers[0]), rate, buffers[1..]);
    }
  }

  /** The carried phase is less than one output step. */
  lemma {:induction false} PhaseBounded(s: State, rate: nat, input: seq<Frame>)
    requires rate > 0 && s.phase < rate
    ensures After(s, rate, input).phase < rate
  {
    var n := Count(s.phase, rate, |input|);
    if n > 0 {
      CountCovers(s.phase, rate, |input|, n - 1);
      NextPosition(s.phase, rate, n - 1);
    }
  }

  /**
   * From the initial state, output frame `k` stands for the point `k * rate / 48000` of the input, counted one frame
   * late: it lies on the line between the two input frames around it, left from left and right from right, and is
   * the earlier of the two when the point falls on it.
   */
  lemma {:induction false} FreshSample(rate: nat, input: seq<Frame>, k: nat)
    requires rate > 0 && k * rate < |input| * 48000
    ensures
      var s, i, t := State(0, Frame(0, 0)), k * rate / 48000, k * rate % 48000;
      var before := if i == 0 then Frame(0, 0) else input[i - 1];
      && k < |Output(s, rate, input)| == (|input| * 48000 + rate - 1) / rate
      && Output(s, rate, input)[k] == MixFrames(before, input[i], t)
      && OnLine(Output(s, rate, input)[k].l, before.l, input[i].l, t)
      && OnLine(Output(s, rate, input)[k].r, before.r, input[i].r, t)
      && (t == 0 ==> Output(s, rate, input)[k] == before)
  {
    hide Mix, OnLine;
    CountCovers(0, rate, |input|, k);
    var i, t := k * rate / 48000, k * rate % 48000;
    var before := if i == 0 then Frame(0, 0) else input[i - 1];
    MixFollows(before.l, input[i].l, t);
    MixFollows(before.r, input[i].r, t);
  }

  /** The output frame that is due at phase `t` of input frame `i`. */
  lemma {:induction false} SampleHere(s: State, rate: nat, input: seq<Frame>, i: nat, k: nat, t: nat)
    requires rate > 0 && i < |input| && t < 48000 && t + i * 48000 == Position(s.phase, rate, k)
    ensures k < |Output(s, rate, input)| && Position(s.phase, rate, k + 1) == Position(s.phase, rate, k) + rate
    ensures Output(s, rate, input)[k] == MixFrames(Before(s.prev, input, i), input[i], t)
  {
    CountCovers(s.phase, rate, |input|, k);
    NextPosition(s.phase, rate, k);
    Locate(i, t);
    assert Output(s, rate, input)[k] == Sample(s, rate, input, k);
  }

  lemma {:induction false} Locate(i: nat, t: nat)
    requires t < 48000
    ensures (t + i * 48000) / 48000 == i && (t + i * 48000) % 48000 == t
  {
  }

  /** Nothing in, nothing out. */
  lemma {:induction false} NoInput(s: State, rate: nat)
    requires rate > 0
    ensures Output(s, rate, []) == [] && After(s, rate, []) == s
  {
  }

  /** Room for four frames more than fit is always enough. */
  lemma {:induction false} GuardNeverCuts(phase: nat, rate: nat, n: nat, k: nat)
    requires rate > 0 && Position(phase, rate, k) < n * 48000
    ensures k <= n * 48000 / rate
  {
    var q := n * 48000 / rate;
    assert q * rate <= n * 48000 < q * rate + rate;
    Monotone(q + 1, k, rate);
  }

  lemma {:induction false} HalfOf(bytes: nat, ch: nat)
    requires ch > 0
    ensures bytes / (2 * ch) == bytes / 2 / ch
  {
    var q := bytes / 2 / ch;
    assert q * ch <= bytes / 2 < q * ch + ch;
    assert q * (2 * ch) == 2 * (q * ch);
    Quotient(bytes, 2 * ch, q);
  }

  // ---- the player ----

  /** The frames in a buffer of interleaved samples; a mono sample serves both sides. */
  function FrameOf(data: seq<int16>, ch: nat, i: nat): Frame
    requires ch > 0 && i * ch + ch <= |data|
  {
    Frame(data[i * ch], if ch >= 2 then data[i * ch + 1] else data[i * ch])
  }

  function FramesOf(data: seq<int16>, ch: nat): (input: seq<Frame>)
    requires ch > 0
    ensures |input| == |data| / ch
  {
    seq(|data| / ch, i requires 0 <= i < |data| / ch => FrameFits(data, ch, i); FrameOf(data, ch, i))
  }

  lemma {:induction false} FrameFits(data: seq<int16>, ch: nat, i: nat)
    requires ch > 0 && i < |data| / ch
    ensures i * ch + ch <= |data|
  {
    assert (i + 1) * ch <= |data| / ch * ch;
  }

  /** Frames as interleaved samples. */
  function Interleaved(frames: seq<Frame>): (data: seq<int16>)
    ensures |data| == 2 * |frames|
  {
    if frames == [] then [] else Interleaved(frames[..|frames| - 1]) + [frames[|frames| - 1].l, frames[|frames| - 1].r]
  }

  lemma {:induction false} InterleavedAt(frames: seq<Frame>, i: nat)
    requires i < |frames|
    ensures Interleaved(frames)[2 * i] == frames[i].l && Interleaved(frames)[2 * i + 1] == frames[i].r
    decreases |frames|
  {
    if i < |frames| - 1 {
      InterleavedAt(frames[..|frames| - 1], i);
    }
  }

  /** Stereo data is taken as it was interleaved, mono data on both sides. */
  lemma {:induction false} FramesBack(frames: seq<Frame>, mono: seq<int16>)
    ensures FramesOf(Interleaved(frames), 2) == frames
    ensures |FramesOf(mono, 1)| == |mono|
    ensures forall i :: 0 <= i < |mono| ==> FramesOf(mono, 1)[i] == Frame(mono[i], mono[i])
  {
    hide Interleaved;
    forall i | 0 <= i < |frames| ensures FramesOf(Interleaved(frames), 2)[i] == frames[i] {
      InterleavedAt(frames, i);
    }
  }

  function FrameCount(bytes: nat, ch: nat): (n: nat)
    requires ch > 0
    ensures n == bytes / 2 / ch
  {
    HalfOf(bytes, ch);
    bytes / (2 * ch)
  }

  /** Room asked for, in frames. */
  function MaxOut(n: nat, rate: nat): nat
    requires rate > 0
  {
    n * 48000 / rate + 4
  }

  /** A page-aligned output buffer of samples. */
  class OutBuf {
    var mem: array<int16>

    ghost predicate Valid()
      reads this
    {
      2 * mem.Length % 0x1000 == 0
    }

    constructor ()
      ensures Valid() && fresh(mem)
    {
      mem := new int16[0];
    }

    /** Frame `i` of the buffer. */
    function At(i: nat): Frame
      reads this, mem
      requires 2 * i + 2 <= mem.Length
    {
      Frame(mem[2 * i], mem[2 * i + 1])
    }

    /** The buffer starts with these frames. */
    ghost predicate Holds(out: seq<Frame>)
      reads this, mem
    {
      2 * |out| <= mem.Length && forall i :: 0 <= i < |out| ==> At(i) == out[i]
    }

    /** What is held is interleaved. */
    lemma {:induction false} HeldInterleaved(out: seq<Frame>)
      requires Holds(out)
      ensures mem[..2 * |out|] == Interleaved(out)
    {
      hide Interleaved;
      forall i | 0 <= i < |out|
        ensures mem[2 * i] == Interleaved(out)[2 * i] && mem[2 * i + 1] == Interleaved(out)[2 * i + 1]
      {
        InterleavedAt(out, i);
        assert At(i) == out[i];
      }
      forall k | 0 <= k < 2 * |out| ensures mem[k] == Interleaved(out)[k] {
        assert k == 2 * (k / 2) || k == 2 * (k / 2) + 1;
      }
    }

    /** `ensure_cap`: `memOk` tells whether the allocation succeeds. */
    method EnsureCap(bytes: nat, memOk: bool) returns (ok: bool)
      requires Valid()
      modifies this
      ensures Valid() && (mem == old(mem) || fresh(mem))
      ensures ok <==> memOk || bytes <= 2 * old(mem.Length)
      ensures ok ==> bytes <= 2 * mem.Length
    {
      var need := (bytes + 0xFFF) / 0x1000 * 0x1000;
      if need <= 2 * mem.Length {
        return true;
      }
      mem := new int16[if memOk then need / 2 else 0];
      return memOk;
    }

    /** Appends frame `i` of `out`. */
    method Put(f: Frame, i: nat, ghost out: seq<Frame>)
      requires 2 * i + 2 <= mem.Length && i < |out| && f == out[i] && Holds(out[..i])
      modifies mem
      ensures Holds(out[..i + 1])
    {
      mem[2 * i], mem[2 * i + 1] := f.l, f.r;
      forall j | 0 <= j < i + 1 ensures At(j) == out[j] {
        assert j < i ==> old(At(j)) == out[..i][j];
      }
    }
  }

  /** The part of the player that converts; `phase`, `prev` are carried from buffer to buffer. */
  class Player {
    const rate: nat
    const ch: nat
    var phase: nat
    var prev: Frame

    ghost predicate Valid()
      reads this
    {
      rate > 0 && ch > 0 && phase < rate
    }

    function Carried(): State
      reads this
    {
      State(phase, prev)
    }

    /** Unset source properties mean 48 kHz stereo. */
    constructor (srcRate: nat, srcCh: nat)
      ensures Valid() && rate == (if srcRate == 0 then 48000 else srcRate) && ch == if srcCh == 0 then 2 else srcCh
      ensures Carried() == State(0, Frame(0, 0))
    {
      rate := if srcRate == 0 then 48000 else srcRate;
      ch := if srcCh == 0 then 2 else srcCh;
      phase, prev := 0, Frame(0, 0);
    }

    /** The inner loop: the output frames that lie before input frame `i`. */
    method Emit(b: OutBuf, cur: Frame, oc0: nat, maxout: nat, ghost s: State, ghost input: seq<Frame>, ghost i: nat)
      returns (oc: nat)
      requires rate > 0 && i < |input| && cur == input[i] && prev == Before(s.prev, input, i)
      requires phase + i * 48000 == Position(s.phase, rate, oc0)
      requires oc0 <= Count(s.phase, rate, |input|) && b.Holds(Output(s, rate, input)[..oc0])
      requires maxout == MaxOut(|input|, rate) && 2 * maxout <= b.mem.Length
      modifies this`phase, b.mem
      ensures phase >= 48000 && phase + i * 48000 == Position(s.phase, rate, oc)
      ensures oc0 <= oc <= Count(s.phase, rate, |input|) && b.Holds(Output(s, rate, input)[..oc])
      ensures oc > oc0 ==> phase < 48000 + rate
      ensures oc == oc0 ==> phase == old(phase)
    {
      oc := oc0;
      ghost var out := Output(s, rate, input);
      while phase < 48000 && oc < maxout
        invariant phase + i * 48000 == Position(s.phase, rate, oc)
        invariant oc0 <= oc <= |out| && b.Holds(out[..oc])
        invariant if oc == oc0 then phase == old(phase) else phase < 48000 + rate
        decreases 48000 - phase
      {
        SampleHere(s, rate, input, i, oc, phase);
        b.Put(MixFrames(prev, cur, phase), oc, out);
        oc := oc + 1;
        phase := phase + rate;
      }
      if phase < 48000 {
        GuardNeverCuts(s.phase, rate, |input|, oc);
        assert false;
      }
    }

    /** The loop for 48 kHz input. */
    method CopyThrough(b: OutBuf, data: seq<int16>)
      requires Valid() && 2 * (|data| / ch) <= b.mem.Length
      modifies b.mem
      ensures b.Holds(FramesOf(data, ch))
    {
      ghost var input := FramesOf(data, ch);
      for i := 0 to |data| / ch
        invariant b.Holds(input[..i])
      {
        FrameFits(data, ch, i);
        b.Put(FrameOf(data, ch, i), i, input);
      }
    }

    /** The loop over the input frames. */
    method Resample(b: OutBuf, data: seq<int16>, maxout: nat) returns (frames: nat)
      requires Valid() && maxout == MaxOut(|data| / ch, rate) && 2 * maxout <= b.mem.Length
      modifies this`phase, this`prev, b.mem
      ensures Valid() && Carried() == After(old(Carried()), rate, FramesOf(data, ch))
      ensures frames == |Output(old(Carried()), rate, FramesOf(data, ch))|
      ensures b.Holds(Output(old(Carried()), rate, FramesOf(data, ch)))
    {
      ghost var s, input := Carried(), FramesOf(data, ch);
      ghost var out := Output(s, rate, input);
      frames := 0;
      for i := 0 to |data| / ch
        invariant phase + i * 48000 == Position(s.phase, rate, frames) && prev == Before(s.prev, input, i)
        invariant frames <= |out| && b.Holds(out[..frames]) && phase < rate
      {
        FrameFits(data, ch, i);
        var cur := FrameOf(data, ch, i);
        frames := Emit(b, cur, frames, maxout, s, input, i);
        phase := phase - 48000;
        prev := cur;
      }
      CountCovers(s.phase, rate, |input|, frames);
    }

    /** Bytes of buffer that converting `n` frames asks for. */
    function Need(n: nat): nat
      requires rate > 0
    {
      if rate == 48000 then 4 * n else 4 * MaxOut(n, rate)
    }

    /**
     * `convert`: the number of output frames, which `b` then holds. At 48 kHz frames pass unchanged and nothing is
     * carried; without memory nothing happens.
     */
    method Convert(b: OutBuf, data: seq<int16>, bytes: nat, memOk: bool) returns (frames: nat)
      requires Valid() && b.Valid() && bytes / 2 == |data|
      modifies this`phase, this`prev, b, b.mem
      ensures Valid() && b.Valid() && (b.mem == old(b.mem) || fresh(b.mem))
      ensures
        var input := FramesOf(data, ch);
        if !memOk && Need(|input|) > 2 * old(b.mem.Length) then frames == 0 && Carried() == old(Carried())
        else if rate == 48000 then frames == |input| && b.Holds(input) && Carried() == old(Carried())
        else
          && frames == |Output(old(Carried()), rate, input)| && b.Holds(Output(old(Carried()), rate, input))
          && Carried() == After(old(Carried()), rate, input)
    {
      var inFrames := FrameCount(bytes, ch);
      if inFrames == 0 {
        assert FramesOf(data, ch) == [];
        NoInput(Carried(), rate);
        return 0;
      }
      if rate == 48000 {
        var ok := b.EnsureCap(inFrames * 2 * 2, memOk);
        if !ok {
          return 0;
        }
        CopyThrough(b, data);
        return inFrames;
      }
      var maxout := MaxOut(inFrames, rate);
      var ok := b.EnsureCap(maxout * 2 * 2, memOk);
      if !ok {
        return 0;
      }
      frames := Resample(b, data, maxout);
    }
  }
}
