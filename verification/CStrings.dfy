/** NUL-terminated strings in a blob, and the unsigned-byte order of `strcmp`. */
module CStrings {
  import opened Bytes
  import opened Slices

  type bytes = seq<byte>

  const NUL: byte := 0
  const DOT: byte := 0x2E
  const SLASH: byte := 0x2F
  const COLON: byte := 0x3A
  const BACKSLASH: byte := 0x5C

  /** `strcmp(a, b) < 0` for two C strings, given without their terminators. */
  predicate Less(a: bytes, b: bytes)
    decreases |a|
  {
    b != [] && (a == [] || a[0] < b[0] || (a[0] == b[0] && Less(a[1..], b[1..])))
  }

  /** `a` comes first where the two differ first, or ends there. */
  predicate FirstDifference(a: bytes, b: bytes, i: nat) {
    i <= |a| && i < |b| && a[..i] == b[..i] && (i == |a| || a[i] < b[i])
  }

  lemma {:induction false} FirstAtStart(a: bytes, b: bytes)
    requires a != [] && b != [] && a[0] != b[0]
    ensures forall i: nat :: FirstDifference(a, b, i) <==> i == 0 && a[0] < b[0]
  {
    forall i: nat | 0 < i <= |a| && i < |b| ensures a[..i] != b[..i] {
      assert a[..i][0] == a[0] && b[..i][0] == b[0];
    }
  }

  lemma {:induction false} FirstFurther(a: bytes, b: bytes, i: nat)
    requires a != [] && b != [] && a[0] == b[0]
    ensures FirstDifference(a, b, i + 1) <==> FirstDifference(a[1..], b[1..], i)
  {
    if i <= |a[1..]| && i <= |b[1..]| {
      var x, y := a[1..][..i], b[1..][..i];
      assert a[..i + 1] == [a[0]] + x && b[..i + 1] == [b[0]] + y;
      assert [a[0]] + x == [b[0]] + y ==> x == y by {
        assert x == ([a[0]] + x)[1..] && y == ([b[0]] + y)[1..];
      }
    }
  }

  /** The order is that of the first difference, and of a proper prefix before what it begins. */
  lemma {:induction false} LessIs(a: bytes, b: bytes)
    ensures Less(a, b) <==> exists i: nat :: FirstDifference(a, b, i)
    decreases |a|
  {
    if a == [] || b == [] {
      assert b != [] ==> FirstDifference(a, b, 0);
    } else if a[0] != b[0] {
      FirstAtStart(a, b);
      assert FirstDifference(a, b, 0) <==> a[0] < b[0];
    } else {
      LessIs(a[1..], b[1..]);
      assert Less(a, b) == Less(a[1..], b[1..]);
      if i: nat :| FirstDifference(a, b, i) {
        assert i > 0;
        FirstFurther(a, b, i - 1);
      }
      if i: nat :| FirstDifference(a[1..], b[1..], i) {
        FirstFurther(a, b, i);
      }
    }
  }

  predicate IsCString(s: bytes) {
    forall i :: 0 <= i < |s| ==> s[i] != NUL
  }

  /** The C string that starts at `offset`: the bytes before the first NUL. */
  function CStringAt(blob: bytes, offset: nat): bytes
    decreases |blob| - offset
  {
    if offset >= |blob| || blob[offset] == NUL then [] else [blob[offset]] + CStringAt(blob, offset + 1)
  }

  lemma {:induction false} LessIrreflexive(a: bytes)
    ensures !Less(a, a)
    decreases |a|
  {
    if a != [] {
      LessIrreflexive(a[1..]);
    }
  }

  lemma {:induction false} LessTransitive(a: bytes, b: bytes, c: bytes)
    requires Less(a, b) && Less(b, c)
    ensures Less(a, c)
    decreases |a|
  {
    if a != [] && a[0] == b[0] == c[0] {
      LessTransitive(a[1..], b[1..], c[1..]);
    }
  }

  lemma {:induction false} LessTotal(a: bytes, b: bytes)
    ensures a == b || Less(a, b) || Less(b, a)
    decreases |a|
  {
    if a != [] && b != [] && a[0] == b[0] {
      LessTotal(a[1..], b[1..]);
      assert a == [a[0]] + a[1..] && b == [b[0]] + b[1..];
    }
  }

  lemma {:induction false} LessAsymmetric(a: bytes, b: bytes)
    requires Less(a, b)
    ensures !Less(b, a)
  {
    if Less(b, a) {
      LessTransitive(a, b, a);
      LessIrreflexive(a);
      assert false;
    }
  }

  /** A common prefix does not matter to the order. */
  lemma {:induction false} LessUnderPrefix(p: bytes, a: bytes, b: bytes)
    ensures Less(p + a, p + b) <==> Less(a, b)
    decreases |p|
  {
    if p == [] {
      assert p + a == a && p + b == b;
    } else {
      assert (p + a)[1..] == p[1..] + a && (p + b)[1..] == p[1..] + b;
      LessUnderPrefix(p[1..], a, b);
    }
  }

  /** A string is no greater than its extensions. */
  lemma {:induction false} PrefixNotGreater(p: bytes, s: bytes)
    requires p <= s
    ensures p == s || Less(p, s)
  {
    LessUnderPrefix(p, [], s[|p|..]);
    assert p + [] == p && p + s[|p|..] == s;
  }

  /** The strings with a given prefix form an interval of the order. */
  lemma {:induction false} PrefixInterval(p: bytes, a: bytes, b: bytes, c: bytes)
    requires p <= a && p <= c
    requires a == b || Less(a, b)
    requires b == c || Less(b, c)
    ensures p <= b
    decreases |p|
  {
    if p != [] && a != b && b != c {
      assert a[0] == p[0] == c[0];
      assert b != [] && b[0] == p[0];
      PrefixInterval(p[1..], a[1..], b[1..], c[1..]);
      assert b == [b[0]] + b[1..] && p == [p[0]] + p[1..];
    }
  }

  /** A string at or above `p` and at or below an extension of `p` extends `p`. */
  lemma {:induction false} BetweenPrefixAndExtension(p: bytes, b: bytes, c: bytes)
    requires p <= c
    requires p == b || Less(p, b)
    requires b == c || Less(b, c)
    ensures p <= b
  {
    PrefixInterval(p, p, b, c);
  }

  /** A terminated string stored in a blob is read back. */
  lemma {:induction false} CStringAtStored(blob: bytes, offset: nat, s: bytes)
    requires offset + |s| < |blob| && blob[offset..offset + |s|] == s && blob[offset + |s|] == NUL
    requires IsCString(s)
    ensures CStringAt(blob, offset) == s
    decreases |s|
  {
    if s != [] {
      assert blob[offset] == blob[offset..offset + |s|][0];
      assert blob[offset + 1..offset + |s|] == blob[offset..offset + |s|][1..];
      CStringAtStored(blob, offset + 1, s[1..]);
    }
  }

  /** Reading stops inside the stored field when the field holds a NUL of its own. */
  lemma {:induction false} CStringAtWithinField(blob: bytes, offset: nat, length: nat)
    requires offset + length < |blob| && blob[offset + length] == NUL
    ensures CStringAt(blob, offset) <= blob[offset..offset + length]
    decreases length
  {
    if length > 0 && blob[offset] != NUL {
      CStringAtWithinField(blob, offset + 1, length - 1);
      assert blob[offset..offset + length] == [blob[offset]] + blob[offset + 1..offset + 1 + (length - 1)];
    }
  }

  /** Components of a path, separated by '/'. */
  function Split(path: bytes): (parts: seq<bytes>)
    ensures |parts| > 0
    decreases |path|
  {
    if path == [] then [[]]
    else
      var rest := Split(path[1..]);
      if path[0] == SLASH then [[]] + rest else [[path[0]] + rest[0]] + rest[1..]
  }

  predicate GoodComponent(part: bytes) {
    part != [] && part != [DOT] && part != [DOT, DOT] && BACKSLASH !in part && COLON !in part
  }

  /** A relative path that stays inside the tree: non-empty components, none of them "." or "..". */
  predicate ValidPath(path: bytes) {
    forall part :: part in Split(path) ==> GoodComponent(part)
  }

  lemma {:induction false} SplitSnocSlash(path: bytes)
    ensures Split(path + [SLASH]) == Split(path) + [[]]
    decreases |path|
  {
    if path != [] {
      assert (path + [SLASH])[1..] == path[1..] + [SLASH];
      SplitSnocSlash(path[1..]);
    } else {
      assert Split([SLASH][1..]) == [[]];
      assert path + [SLASH] == [SLASH];
    }
  }

  /** The components after one more byte of the last one. */
  function Push(parts: seq<bytes>, b: byte): seq<bytes>
    requires parts != []
  {
    DropLast(parts) + [Last(parts) + [b]]
  }

  lemma {:induction false} PushBehind(first: bytes, parts: seq<bytes>, b: byte)
    requires parts != []
    ensures Push([first] + parts, b) == [first] + Push(parts, b)
  {
    assert DropLast([first] + parts) == [first] + DropLast(parts);
    Associative([first], DropLast(parts), [Last(parts) + [b]]);
  }

  lemma {:induction false} PushFirst(x: byte, parts: seq<bytes>, b: byte)
    requires parts != []
    ensures Push([[x] + parts[0]] + parts[1..], b) == [[x] + Push(parts, b)[0]] + Push(parts, b)[1..]
  {
    if |parts| == 1 {
      assert parts == [parts[0]];
      assert Push(parts, b) == [parts[0] + [b]];
      Associative([x], parts[0], [b]);
    } else {
      assert parts == [parts[0]] + parts[1..];
      PushBehind(parts[0], parts[1..], b);
      PushBehind([x] + parts[0], parts[1..], b);
    }
  }

  lemma {:induction false} SplitSnocOther(path: bytes, b: byte)
    requires b != SLASH
    ensures Split(path + [b]) == Push(Split(path), b)
    decreases |path|
  {
    if path == [] {
      assert path + [b] == [b] && Split([b][1..]) == [[]];
      assert [b] + [] == [b];
      assert Split([b]) == [[b]];
    } else {
      assert (path + [b])[1..] == path[1..] + [b];
      SplitSnocOther(path[1..], b);
      if path[0] == SLASH {
        PushBehind([], Split(path[1..]), b);
      } else {
        PushFirst(path[0], Split(path[1..]), b);
      }
    }
  }

  /** Everything before a '/' splits on its own. */
  lemma {:induction false} SplitAtSlash(a: bytes, b: bytes)
    ensures Split(a + [SLASH] + b) == Split(a) + Split(b)
    decreases |a|
  {
    if a == [] {
      assert (a + [SLASH] + b)[1..] == b;
    } else {
      assert (a + [SLASH] + b)[1..] == a[1..] + [SLASH] + b;
      SplitAtSlash(a[1..], b);
      var ra, rb := Split(a[1..]), Split(b);
      if a[0] == SLASH {
        Associative([[]], ra, rb);
      } else {
        assert (ra + rb)[1..] == ra[1..] + rb;
        Associative([[a[0]] + ra[0]], ra[1..], rb);
      }
    }
  }
}
