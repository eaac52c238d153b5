/** Slices of concatenations and prefixes, one step at a time. */
module Slices {
  function Last<T>(s: seq<T>): T requires s != [] { s[|s| - 1] }

  function DropLast<T>(s: seq<T>): seq<T> requires s != [] { s[..|s| - 1] }

  lemma {:induction false} OfSlice<T>(s: seq<T>, p: nat, n: nat, i: nat, j: nat)
    requires p + n <= |s| && i <= j <= n
    ensures s[p..p + n][i..j] == s[p + i..p + j]
  {
    var a, b := s[p..p + n][i..j], s[p + i..p + j];
    assert forall k :: 0 <= k < j - i ==> a[k] == b[k];
  }

  lemma {:induction false} OfPrefix<T>(t: seq<T>, all: seq<T>, i: nat, j: nat)
    requires t <= all && i <= j <= |t|
    ensures all[i..j] == t[i..j]
  {
  }

  lemma {:induction false} OfSuffix<T>(head: seq<T>, tail: seq<T>, i: nat, j: nat)
    requires i <= j <= |tail|
    ensures (head + tail)[|head| + i..|head| + j] == tail[i..j]
  {
  }

  lemma {:induction false} Extend<T>(s: seq<T>, i: nat)
    requires i < |s|
    ensures s[..i + 1] == s[..i] + [s[i]]
    ensures DropLast(s[..i + 1]) == s[..i] && Last(s[..i + 1]) == s[i]
  {
  }

  lemma {:induction false} ExtendBy<T>(s: seq<T>, i: nat, n: nat)
    requires i + n <= |s|
    ensures s[..i + n] == s[..i] + s[i..i + n]
  {
  }

  lemma {:induction false} Adjacent<T>(s: seq<T>, a: nat, b: nat, c: nat)
    requires a <= b <= c <= |s|
    ensures s[a..b] + s[b..c] == s[a..c]
  {
  }

  lemma {:induction false} Whole<T>(s: seq<T>)
    ensures s[..|s|] == s && s[0..] == s
  {
  }

  lemma {:induction false} Associative<T>(a: seq<T>, b: seq<T>, c: seq<T>)
    ensures a + b + c == a + (b + c)
  {
  }

  lemma {:induction false} SplitAt<T>(s: seq<T>, i: nat)
    requires i < |s|
    ensures s[..i] + [s[i]] + s[i + 1..] == s
  {
  }

  lemma {:induction false} ThreeParts<T>(x: seq<T>, y: seq<T>, z: seq<T>)
    ensures (x + y + z)[0..|x|] == x && (x + y + z)[|x|..|x| + |y|] == y
  {
  }

  lemma {:induction false} FourParts<T>(x: seq<T>, y: seq<T>, z: seq<T>, w: seq<T>)
    ensures
      var s, a, b, c := x + y + z + w, |x|, |x| + |y|, |x| + |y| + |z|;
      s[0..a] == x && s[a..b] == y && s[b..c] == z && s[c..c + |w|] == w
  {
    var s, a, b, c := x + y + z + w, |x|, |x| + |y|, |x| + |y| + |z|;
    OfPrefix(x + y + z, s, b, c);
    OfPrefix(x + y, s, a, b);
    OfSuffix(x + y + z, w, 0, |w|);
  }
}
