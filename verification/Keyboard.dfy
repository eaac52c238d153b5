/** Handing the system keyboard's result to the game as key events. */
module Keyboard {
  import opened Bytes
  import opened Slices
  import opened Utf8

  const BACKSPACE := 67
  const FORWARD_DELETE := 112
  const ENTER := 66
  const INSERT := 0
  const NEWLINE := 10

  datatype Key = Key(code: nat, unicode: nat, pressed: bool)

  // ---- the consumer ----

  /** An edit buffer: its text and what is selected; an empty selection is the caret. */
  datatype Buffer = Buffer(text: seq<nat>, start: nat, end: nat)

  predicate Sound(b: Buffer) { b.start <= b.end <= |b.text| }

  /** Puts `piece` in the place of the selection. */
  function Replace(b: Buffer, piece: seq<nat>): (c: Buffer)
    requires Sound(b)
    ensures Sound(c)
  {
    Buffer(b.text[..b.start] + piece + b.text[b.end..], b.start + |piece|, b.start + |piece|)
  }

  /** What a key does; releases do nothing. */
  function Play(b: Buffer, k: Key): (c: Buffer)
    requires Sound(b)
    ensures Sound(c)
  {
    if !k.pressed then b
    else if k.code == BACKSPACE then
      if b.start < b.end || b.start == 0 then Replace(b, []) else Replace(b.(start := b.start - 1), [])
    else if k.code == FORWARD_DELETE then
      if b.start < b.end || b.end == |b.text| then Replace(b, []) else Replace(b.(end := b.end + 1), [])
    else if k.code == ENTER then Replace(b, [NEWLINE])
    else if k.code == INSERT then Replace(b, [k.unicode])
    else b
  }

  function PlayAll(b: Buffer, keys: seq<Key>): (c: Buffer)
    requires Sound(b)
    ensures Sound(c)
  {
    if keys == [] then b else Play(PlayAll(b, keys[..|keys| - 1]), keys[|keys| - 1])
  }

  lemma {:induction false} OneMore(b: Buffer, keys: seq<Key>, k: Key)
    requires Sound(b)
    ensures PlayAll(b, keys + [k]) == Play(PlayAll(b, keys), k)
  {
    var more := keys + [k];
    assert more[..|more| - 1] == keys;
  }

  /** Every press is followed at once by its release. */
  predicate Paired(keys: seq<Key>) {
    |keys| % 2 == 0 &&
    forall i :: 0 <= i < |keys| ==>
      && keys[i].pressed == (i % 2 == 0)
      && (i % 2 == 1 ==> keys[i] == keys[i - 1].(pressed := false))
  }

  lemma {:induction false} PairedMore(keys: seq<Key>, code: nat, unicode: nat)
    requires Paired(keys)
    ensures Paired(keys + [Key(code, unicode, true)] + [Key(code, unicode, false)])
  {
  }

  /** One key, pressed and released. */
  method Tap(keys: seq<Key>, code: nat, unicode: nat, ghost b: Buffer) returns (more: seq<Key>)
    requires Sound(b) && Paired(keys)
    ensures Paired(more) && PlayAll(b, more) == Play(PlayAll(b, keys), Key(code, unicode, true)) && |more| == |keys| + 2
  {
    hide Paired, PlayAll;
    var press, release := Key(code, unicode, true), Key(code, unicode, false);
    OneMore(b, keys, press);
    OneMore(b, keys + [press], release);
    PairedMore(keys, code, unicode);
    more := keys + [press] + [release];
  }

  // ---- the phases ----

  /** What is left when `i` code points before the caret and those from `end` on remain. */
  function Around(text: seq<nat>, i: nat, end: nat): Buffer
    requires i <= end <= |text|
  {
    Buffer(text[..i] + text[end..], i, i)
  }

  lemma {:induction false} BackspaceStep(text: seq<nat>, i: nat, end: nat)
    requires 0 < i <= end <= |text|
    ensures Sound(Around(text, i, end)) && Play(Around(text, i, end), Key(BACKSPACE, 0, true)) ==
      Around(text, i - 1, end)
  {
    var b := Around(text, i, end);
    assert b.text[..i - 1] == text[..i - 1] && b.text[i..] == text[end..];
  }

  lemma {:induction false} ForwardStep(text: seq<nat>, end: nat)
    requires end < |text|
    ensures Sound(Around(text, 0, end)) && Play(Around(text, 0, end), Key(FORWARD_DELETE, 0, true)) ==
      Around(text, 0, end + 1)
  {
    var b := Around(text, 0, end);
    assert b.text[1..] == text[end + 1..] && b.text[..0] == [];
  }

  /** Deleting where there is nothing left to delete does nothing. */
  lemma {:induction false} NothingLeft(text: seq<nat>, end: nat)
    requires end <= |text|
    ensures Play(Around(text, 0, end), Key(BACKSPACE, 0, true)) == Around(text, 0, end)
    ensures end == |text| ==> Play(Around(text, 0, end), Key(FORWARD_DELETE, 0, true)) == Around(text, 0, end)
  {
    var b := Around(text, 0, end);
    assert b.text[..0] + [] + b.text[0..] == b.text;
  }

  /** The first backspace takes the selection, or one code point where clamping has left none. */
  lemma {:induction false} SelectionStep(text: seq<nat>, start: nat, end: nat)
    requires start <= end <= |text|
    ensures Play(Buffer(text, start, end), Key(BACKSPACE, 0, true)) ==
      Around(text, if start < end || start == 0 then start else start - 1, end)
  {
    var i := if start < end || start == 0 then start else start - 1;
    assert text[..i] + [] + text[end..] == text[..i] + text[end..];
  }

  /** The new text so far, caret behind it. */
  function Typed(text: seq<nat>): Buffer { Buffer(text, |text|, |text|) }

  lemma {:induction false} TypeStep(text: seq<nat>, cp: nat, code: nat)
    requires code == INSERT || (code == ENTER && cp == NEWLINE)
    ensures Play(Typed(text), Key(code, if code == ENTER then 0 else cp, true)) == Typed(text + [cp])
  {
    assert text[..|text|] == text && text[|text|..] == [];
  }

  /** Deletes what stands before the caret, `count` times or until nothing is left. */
  method DeleteBefore(keys0: seq<Key>, count: nat, ghost b: Buffer, ghost text: seq<nat>, ghost first: nat,
                      ghost end: nat)
    returns (keys: seq<Key>)
    requires Sound(b) && Paired(keys0) && first <= count && first <= end <= |text|
      && PlayAll(b, keys0) == Around(text, first, end)
    ensures Paired(keys) && PlayAll(b, keys) == Around(text, 0, end) && |keys| == |keys0| + 2 * count
  {
    hide Play, PlayAll, Paired, Around;
    keys := keys0;
    for i := count downto 0
      invariant Paired(keys) && |keys| == |keys0| + 2 * (count - i)
      invariant PlayAll(b, keys) == Around(text, Max(0, first - (count - i)), end)
    {
      var left: nat := Max(0, first - (count - i - 1));
      if left > 0 {
        BackspaceStep(text, left, end);
      } else {
        NothingLeft(text, end);
      }
      keys := Tap(keys, BACKSPACE, 0, b);
    }
  }

  lemma {:induction false} NothingAround(text: seq<nat>)
    ensures Around(text, 0, |text|) == Typed([])
  {
  }

  /** Deletes what stands behind the caret, `count` times or until nothing is left. */
  method DeleteAfter(keys0: seq<Key>, count: nat, ghost b: Buffer, ghost text: seq<nat>, ghost end: nat)
    returns (keys: seq<Key>)
    requires Sound(b) && Paired(keys0) && end <= |text| <= end + count && PlayAll(b, keys0) == Around(text, 0, end)
    ensures Paired(keys) && PlayAll(b, keys) == Typed([]) && |keys| == |keys0| + 2 * count
  {
    hide Play, PlayAll, Paired, Around;
    keys := keys0;
    for i := count downto 0
      invariant Paired(keys) && |keys| == |keys0| + 2 * (count - i)
      invariant PlayAll(b, keys) == Around(text, 0, Min(|text|, end + (count - i)))
    {
      var next: nat := Min(|text|, end + (count - i - 1));
      if next < |text| {
        ForwardStep(text, next);
      } else {
        NothingLeft(text, next);
      }
      keys := Tap(keys, FORWARD_DELETE, 0, b);
    }
    NothingAround(text);
  }

  /** One code point of the new text; a line break goes as the enter key when there is no selection end. */
  method TypeOne(keys: seq<Key>, cp: nat, cursorEnd: int, ghost b: Buffer, ghost typed: seq<nat>)
    returns (more: seq<Key>)
    requires Sound(b) && Paired(keys) && PlayAll(b, keys) == Typed(typed)
    ensures Paired(more) && PlayAll(b, more) == Typed(typed + [cp]) && |more| == |keys| + 2
  {
    if cp == NEWLINE && cursorEnd < 0 {
      TypeStep(typed, cp, ENTER);
      more := Tap(keys, ENTER, 0, b);
    } else {
      TypeStep(typed, cp, INSERT);
      more := Tap(keys, INSERT, cp, b);
    }
  }

  /** Types the new text. */
  method TypeText(keys0: seq<Key>, text: bytes, cursorEnd: int, ghost b: Buffer) returns (keys: seq<Key>)
    requires Sound(b) && Paired(keys0) && NulFree(text) && PlayAll(b, keys0) == Typed([])
    ensures Paired(keys) && PlayAll(b, keys) == Typed(Decode(text, 0)) && |keys| == |keys0| + 2 * |Decode(text, 0)|
  {
    keys := keys0;
    var pos := 0;
    ghost var all, typed: seq<nat> := Decode(text, 0), [];
    while true
      invariant pos <= |text| && Paired(keys) && PlayAll(b, keys) == Typed(typed)
      invariant typed + Decode(text, pos) == all && |keys| == |keys0| + 2 * |typed|
      decreases |text| - pos
    {
      var more, next, cp := NextCodePoint(text, pos);
      if !more {
        return;
      }
      keys := TypeOne(keys, cp, cursorEnd, b, typed);
      Associative(typed, [cp], Decode(text, next));
      typed := typed + [cp];
      pos := next;
    }
  }

  /** The counting loop: how many code points a text has. */
  method Length(text: bytes) returns (n: nat)
    requires NulFree(text)
    ensures n == |Decode(text, 0)|
  {
    n := 0;
    var pos := 0;
    while true
      invariant pos <= |text| && n + |Decode(text, pos)| == |Decode(text, 0)|
      decreases |text| - pos
    {
      var more, next, cp := NextCodePoint(text, pos);
      if !more {
        return;
      }
      n := n + 1;
      pos := next;
    }
  }

  // ---- the whole exchange ----

  /** The end of the selection, or the caret. */
  function End(cursorStart: int, cursorEnd: int): int { if cursorEnd >= cursorStart then cursorEnd else cursorStart }

  /**
   * The buffer that the engine's cursor arguments describe: a selection, a caret, or a caret at the end. Positions
   * beyond the text are those of its end.
   */
  function Given(text: seq<nat>, cursorStart: int, cursorEnd: int): (b: Buffer)
    ensures Sound(b)
  {
    if cursorStart < 0 then Buffer(text, |text|, |text|)
    else Buffer(text, Min(cursorStart, |text|), Min(End(cursorStart, cursorEnd), |text|))
  }

  /** How many forward deletions are sent: the subtraction of sizes wraps. */
  function ForwardDeletions(length: nat, end: nat): nat { (length - end) % 0x1_0000_0000_0000_0000 }

  /** How many deletions are sent in all. */
  function Deletions(length: nat, cursorStart: int, cursorEnd: int): nat {
    if cursorStart < 0 then length
    else
      (if cursorEnd > cursorStart then 1 else 0) +
      cursorStart + ForwardDeletions(length, End(cursorStart, cursorEnd))
  }

  /** No more is deleted forward than the text holds, exactly when the selection ends inside the text. */
  lemma {:induction false} ForwardExactly(length: nat, end: nat)
    requires length < 0x1_0000_0000_0000_0000 && end < 0x1_0000_0000_0000_0000
    ensures ForwardDeletions(length, end) <= length <==> end <= length
    ensures end <= length ==> ForwardDeletions(length, end) == length - end
  {
  }

  /** A caret one behind an empty text asks for 2^64 - 1 deletions. */
  lemma {:induction false} CaretBehindExample()
    ensures Deletions(0, 1, 1) == 1 + 0xFFFF_FFFF_FFFF_FFFF
  {
  }

  /**
   * `switch_keyboard_emit_text`: whatever the buffer held and whatever was selected, the events leave exactly the
   * new text, with the caret behind it. How many there are is exact.
   */
  method EmitText(oldText: bytes, cursorStart: int, cursorEnd: int, newText: bytes) returns (keys: seq<Key>)
    requires NulFree(oldText) && NulFree(newText) && |Decode(oldText, 0)| < 0x1_0000_0000_0000_0000
    ensures Paired(keys)
    ensures PlayAll(Given(Decode(oldText, 0), cursorStart, cursorEnd), keys) == Typed(Decode(newText, 0))
    ensures |keys| == 2 * (Deletions(|Decode(oldText, 0)|, cursorStart, cursorEnd) + |Decode(newText, 0)|)
  {
    var oldLen := Length(oldText);
    ghost var text := Decode(oldText, 0);
    ghost var b := Given(text, cursorStart, cursorEnd);
    keys := [];
    if cursorStart >= 0 {
      keys := DeleteAround(oldLen, cursorStart, cursorEnd, b, text);
    } else {
      assert text[..|text|] + text[|text|..] == text;
      keys := DeleteBefore(keys, oldLen, b, text, |text|, |text|);
      assert Around(text, 0, |text|) == Typed([]);
    }
    keys := TypeText(keys, newText, cursorEnd, b);
  }

  lemma {:induction false} NoKeys(b: Buffer)
    requires Sound(b)
    ensures PlayAll(b, []) == b && Paired([])
  {
  }

  lemma {:induction false} CaretAround(text: seq<nat>, caret: nat)
    requires caret <= |text|
    ensures Buffer(text, caret, caret) == Around(text, caret, caret)
  {
    assert text[..caret] + text[caret..] == text;
  }

  lemma {:induction false} ForwardReaches(length: nat, end: nat)
    requires length < 0x1_0000_0000_0000_0000
    ensures length <= Min(end, length) + ForwardDeletions(length, end)
  {
  }

  /** The deletions when there is a caret. */
  method DeleteAround(oldLen: nat, cursorStart: nat, cursorEnd: int, ghost b: Buffer, ghost text: seq<nat>)
    returns (keys: seq<Key>)
    requires oldLen == |text| < 0x1_0000_0000_0000_0000 && b == Given(text, cursorStart, cursorEnd)
    ensures Paired(keys) && PlayAll(b, keys) == Typed([]) && |keys| == 2 * Deletions(oldLen, cursorStart, cursorEnd)
  {
    hide Play, PlayAll, Paired, Around;
    NoKeys(b);
    keys := [];
    var end := if cursorEnd >= cursorStart then cursorEnd else cursorStart;
    ghost var first, behind := b.start, b.end;
    if cursorEnd >= cursorStart && cursorEnd != cursorStart {
      SelectionStep(text, first, behind);
      first := if first < behind || first == 0 then first else first - 1;
      keys := Tap(keys, BACKSPACE, 0, b);
    } else {
      CaretAround(text, first);
    }
    keys := DeleteBefore(keys, cursorStart, b, text, first, behind);
    var count := (oldLen - end) % 0x1_0000_0000_0000_0000;
    ForwardReaches(oldLen, end);
    keys := DeleteAfter(keys, count, b, text, behind);
  }
}
