/** Writing pieces into a byte string without moving anything. */
module Edits {
  import opened Bytes

  type bytes = seq<byte>

  datatype Edit = Edit(at: nat, piece: bytes) {
    predicate Fits(size: nat) { at + |piece| <= size }

    predicate Covers(k: nat) { at <= k < at + |piece| }

    /** What the edit puts at `k`. */
    function At(k: nat): byte
      requires Covers(k)
    {
      piece[k - at]
    }

    /** The edit that puts back what stood there in `b`. */
    function Undo(b: bytes): Edit
      requires Fits(|b|)
    {
      Edit(at, b[at..at + |piece|])
    }
  }

  predicate AllFit(edits: seq<Edit>, size: nat) { forall i :: 0 <= i < |edits| ==> edits[i].Fits(size) }

  predicate Disjoint(edits: seq<Edit>) {
    forall i, j :: 0 <= i < j < |edits| ==>
      edits[i].at + |edits[i].piece| <= edits[j].at || edits[j].at + |edits[j].piece| <= edits[i].at
  }

  function Splice(b: bytes, at: nat, piece: bytes): (c: bytes)
    requires at + |piece| <= |b|
    ensures |c| == |b|
    ensures forall k :: 0 <= k < |b| ==> c[k] == if at <= k < at + |piece| then piece[k - at] else b[k]
  {
    b[..at] + piece + b[at + |piece|..]
  }

  /** The first `n` edits, in order. */
  function Apply(b: bytes, edits: seq<Edit>, n: nat): (c: bytes)
    requires n <= |edits| && AllFit(edits, |b|)
    ensures |c| == |b|
    decreases n, |b|
  {
    if n == 0 then b else Splice(Apply(b, edits, n - 1), edits[n - 1].at, edits[n - 1].piece)
  }

  predicate Untouched(edits: seq<Edit>, n: nat, k: nat)
    requires n <= |edits|
  {
    forall i :: 0 <= i < n ==> !edits[i].Covers(k)
  }

  lemma {:induction false} UntouchedKept(b: bytes, edits: seq<Edit>, n: nat, k: nat)
    requires n <= |edits| && AllFit(edits, |b|) && k < |b| && Untouched(edits, n, k)
    ensures Apply(b, edits, n)[k] == b[k]
  {
    if n > 0 {
      UntouchedKept(b, edits, n - 1, k);
      assert !edits[n - 1].Covers(k);
    }
  }

  lemma {:induction false} OnlyOneCovers(edits: seq<Edit>, i: nat, j: nat, k: nat)
    requires Disjoint(edits) && i < j < |edits| && edits[i].Covers(k)
    ensures !edits[j].Covers(k)
  {
  }

  lemma {:induction false} ApplyStep(b: bytes, edits: seq<Edit>, n: nat, k: nat)
    requires n < |edits| && AllFit(edits, |b|) && k < |b|
    ensures
      var e := edits[n];
      Apply(b, edits, n + 1)[k] == if e.Covers(k) then e.At(k) else Apply(b, edits, n)[k]
  {
    hide Disjoint;
  }

  lemma {:induction false} CoveredInside(b: bytes, edits: seq<Edit>, i: nat, k: nat)
    requires i < |edits| && AllFit(edits, |b|) && edits[i].Covers(k)
    ensures k < |b|
  {
    assert edits[i].Fits(|b|);
  }

  /** Edits that do not overlap all take effect. */
  lemma {:induction false} EveryEditTakes(b: bytes, edits: seq<Edit>, n: nat, i: nat, k: nat)
    requires i < n <= |edits| && AllFit(edits, |b|) && Disjoint(edits) && edits[i].Covers(k)
    ensures k < |b| && Apply(b, edits, n)[k] == edits[i].At(k)
    decreases n
  {
    hide AllFit, Disjoint, Apply, Edit.Covers;
    CoveredInside(b, edits, i, k);
    ApplyStep(b, edits, n - 1, k);
    if i < n - 1 {
      OnlyOneCovers(edits, i, n - 1, k);
      EveryEditTakes(b, edits, n - 1, i, k);
    }
  }

  lemma {:induction false} FitsHere(edits: seq<Edit>, size: nat, i: nat)
    requires AllFit(edits, size) && i < |edits|
    ensures edits[i].Fits(size)
  {
  }

  lemma {:induction false} PieceStands(b: bytes, edits: seq<Edit>, i: nat)
    requires i < |edits| && AllFit(edits, |b|) && Disjoint(edits)
    ensures
      var e := edits[i];
      e.Fits(|b|) && Apply(b, edits, |edits|)[e.at..e.at + |e.piece|] == e.piece
  {
    hide AllFit, Disjoint, Apply;
    var e := edits[i];
    FitsHere(edits, |b|, i);
    var there := Apply(b, edits, |edits|)[e.at..e.at + |e.piece|];
    forall k | 0 <= k < |e.piece| ensures there[k] == e.piece[k] {
      EveryEditTakes(b, edits, |edits|, i, e.at + k);
    }
  }

  /** `undo` puts back, one for one, what `edits` overwrote in `b`. */
  predicate Undoes(b: bytes, edits: seq<Edit>, undo: seq<Edit>)
    requires AllFit(edits, |b|)
  {
    |undo| == |edits| && forall i :: 0 <= i < |edits| ==> undo[i] == edits[i].Undo(b)
  }

  lemma {:induction false} UndoUntouched(b: bytes, edits: seq<Edit>, undo: seq<Edit>, k: nat)
    requires AllFit(edits, |b|) && Undoes(b, edits, undo) && AllFit(undo, |b|) && k < |b|
      && Untouched(edits, |edits|, k)
    ensures Apply(Apply(b, edits, |edits|), undo, |undo|)[k] == b[k]
  {
    hide Apply;
    UntouchedKept(b, edits, |edits|, k);
    forall i | 0 <= i < |undo| ensures !undo[i].Covers(k) {
      assert undo[i] == edits[i].Undo(b) && !edits[i].Covers(k);
    }
    UntouchedKept(Apply(b, edits, |edits|), undo, |undo|, k);
  }

  lemma {:induction false} UndoHere(b: bytes, edits: seq<Edit>, undo: seq<Edit>, i: nat)
    requires AllFit(edits, |b|) && Undoes(b, edits, undo) && i < |edits|
    ensures |undo| == |edits| && edits[i].Fits(|b|) && undo[i] == edits[i].Undo(b)
  {
  }

  lemma {:induction false} UndoTouched(b: bytes, edits: seq<Edit>, undo: seq<Edit>, i: nat, k: nat)
    requires AllFit(edits, |b|) && Undoes(b, edits, undo) && AllFit(undo, |b|) && Disjoint(undo)
    requires i < |edits| && edits[i].Covers(k)
    ensures k < |b| && Apply(Apply(b, edits, |edits|), undo, |undo|)[k] == b[k]
  {
    hide AllFit, Disjoint, Apply, Undoes;
    UndoHere(b, edits, undo, i);
    EveryEditTakes(Apply(b, edits, |edits|), undo, |undo|, i, k);
    assert undo[i].At(k) == b[k];
  }

  lemma {:induction false} UndoByte(b: bytes, edits: seq<Edit>, undo: seq<Edit>, k: nat)
    requires AllFit(edits, |b|) && Undoes(b, edits, undo) && AllFit(undo, |b|) && Disjoint(undo) && k < |b|
    ensures Apply(Apply(b, edits, |edits|), undo, |undo|)[k] == b[k]
  {
    if Untouched(edits, |edits|, k) {
      UndoUntouched(b, edits, undo, k);
    } else {
      var i :| 0 <= i < |edits| && edits[i].Covers(k);
      UndoTouched(b, edits, undo, i, k);
    }
  }

  lemma {:induction false} UndoFits(b: bytes, edits: seq<Edit>, undo: seq<Edit>)
    requires AllFit(edits, |b|) && Disjoint(edits) && Undoes(b, edits, undo)
    ensures AllFit(undo, |b|) && Disjoint(undo)
  {
    forall i | 0 <= i < |undo| ensures undo[i].Fits(|b|) {
      assert undo[i] == edits[i].Undo(b);
    }
    forall i, j | 0 <= i < j < |undo|
      ensures undo[i].at + |undo[i].piece| <= undo[j].at || undo[j].at + |undo[j].piece| <= undo[i].at
    {
      assert undo[i] == edits[i].Undo(b) && undo[j] == edits[j].Undo(b);
    }
  }

  /** Undoing edits that do not overlap gives the original back. */
  lemma {:induction false} UndoRestores(b: bytes, edits: seq<Edit>, undo: seq<Edit>)
    requires AllFit(edits, |b|) && Disjoint(edits) && Undoes(b, edits, undo)
    ensures AllFit(undo, |b|) && Apply(Apply(b, edits, |edits|), undo, |undo|) == b
  {
    UndoFits(b, edits, undo);
    var d := Apply(Apply(b, edits, |edits|), undo, |undo|);
    forall k | 0 <= k < |b| ensures d[k] == b[k] {
      UndoByte(b, edits, undo, k);
    }
  }
}
