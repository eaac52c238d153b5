/** Compiled scripts written from their parts, apart from the parser: what the parser finds is what was meant. */
module ScriptWriter {
  import opened Bytes
  import opened Slices
  import opened ScriptTokens
  import opened ScriptPatch

  type char32 = u32

  type int32 = x: int | -0x8000_0000 <= x < 0x8000_0000
  type int64 = x: int | -0x8000_0000_0000_0000 <= x < 0x8000_0000_0000_0000

  /**
   * A literal of the script; floats by their bytes, texts as String or as StringName. A flagged one has other bits in
   * its header beside the kind, which the parser skips.
   */
  datatype Constant =
    | Nothing
    | Truth(v: bool)
    | Small(i: int32)
    | Large(j: int64)
    | Single(raw: bytes)
    | Double(raw: bytes)
    | Text(isName: bool, text: bytes)
    | Flagged(kind: byte, flags: nat, rest: bytes)
  {
    predicate Valid() {
      match this
      case Single(raw) => |raw| == 4
      case Double(raw) => |raw| == 8
      case Text(_, text) => |text| < 0x1_0000_0000
      case Flagged(kind, flags, rest) =>
        && kind in {0, 1, 2, 3, 4, 21} && 0 < flags < 0x100_0000
        && (kind == 2 || kind == 3 ==> flags != 0x100)
        && if kind == 4 || kind == 21 then |rest| < 0x1_0000_0000
           else |rest| == (if kind == 0 then 0 else if kind == 1 then 4 else if flags / 0x100 % 2 == 1 then 8 else 4)
      case _ => true
    }
  }

  /** A token with its line: a narrow one is just its kind, a wide one carries an index. */
  datatype Token = Narrow(kind: byte, line: bytes) | Wide(kind: byte, index: nat, line: bytes) {
    predicate Valid() { kind < 0x80 && |line| == 4 && (Wide? ==> index < 0x100_0000) }

    /** The constant that a literal names; a narrow literal carries no index, which reads as 0. */
    function Names(): Option<nat> {
      if kind != 3 then None else if Wide? then Some(index) else Some(0)
    }
  }

  datatype Script = Script(identifiers: seq<seq<char32>>, constants: seq<Constant>, lines: seq<bytes>,
                           tokens: seq<Token>) {
    predicate Valid() {
      && |identifiers| < 0x1_0000_0000 && |constants| < 0x1_0000_0000
      && |lines| < 0x1_0000_0000 && |tokens| < 0x1_0000_0000
      && (forall i :: 0 <= i < |identifiers| ==> |identifiers[i]| < 0x1_0000_0000)
      && (forall i :: 0 <= i < |constants| ==> constants[i].Valid())
      && (forall i :: 0 <= i < |lines| ==> |lines[i]| == 16)
      && forall i :: 0 <= i < |tokens| ==> tokens[i].Valid()
    }

    /** Every literal token names a constant that there is. */
    predicate Closed() { NamesOk(tokens, |tokens|, |constants|) }
  }

  predicate NamesOk(tokens: seq<Token>, n: nat, constants: nat)
    requires n <= |tokens|
  {
    forall k :: 0 <= k < n && tokens[k].Names().Some? ==> tokens[k].Names().value < constants
  }

  /** How many of the first `n` tokens name constant `c`. */
  function NameCount(tokens: seq<Token>, n: nat, c: nat): nat
    requires n <= |tokens|
    decreases n, c
  {
    if n == 0 then 0 else NameCount(tokens, n - 1, c) + (if tokens[n - 1].Names() == Some(c) then 1 else 0)
  }

  // ---- the bytes ----

  function Four(v: u32): (s: bytes)
    ensures |s| == 4
  {
    [v % 0x100, v / 0x100 % 0x100, v / 0x1_0000 % 0x100, v / 0x100_0000]
  }

  function Eight(v: u64): (s: bytes) ensures |s| == 8 { Four(v % 0x1_0000_0000) + Four(v / 0x1_0000_0000) }

  function Unsigned32(v: int32): u32 { if v < 0 then v + 0x1_0000_0000 else v }

  function Unsigned64(v: int64): u64 { if v < 0 then v + 0x1_0000_0000_0000_0000 else v }

  /** How many zeros follow a text of `n` bytes. */
  function Padding(n: nat): nat { if n % 4 == 0 then 0 else 4 - n % 4 }

  function ConstantBytes(c: Constant): bytes
    requires c.Valid()
  {
    match c
    case Nothing => Four(0)
    case Truth(v) => Four(1) + Four(if v then 1 else 0)
    case Small(i) => Four(2) + Four(Unsigned32(i))
    case Large(j) => Four(0x1_0002) + Eight(Unsigned64(j))
    case Single(raw) => Four(3) + raw
    case Double(raw) => Four(0x1_0003) + raw
    case Text(isName, text) => Four(if isName then 21 else 4) + Four(|text|) + text + Zeros(Padding(|text|))
    case Flagged(kind, flags, rest) =>
      var header := Four((kind as int) + 0x100 * flags);
      if kind == 4 || kind == 21 then header + Four(|rest|) + rest + Zeros(Padding(|rest|)) else header + rest
  }

  function IdentifierBytes(id: seq<char32>): (s: bytes)
    requires |id| < 0x1_0000_0000
    ensures |s| == 4 + 4 * |id|
  {
    Four(|id|) + CharBytes(id)
  }

  function CharBytes(id: seq<char32>): (s: bytes)
    ensures |s| == 4 * |id|
  {
    if id == [] then [] else CharBytes(DropLast(id)) + Four(Last(id))
  }

  function TokenBytes(t: Token): (s: bytes)
    requires t.Valid()
    ensures |s| == if t.Wide? then 8 else 5
  {
    match t
    case Narrow(kind, line) => [kind] + line
    case Wide(kind, index, line) =>
      [(kind as int) + 0x80, index % 0x100, index / 0x100 % 0x100, index / 0x1_0000] + line
  }

  function Joined(blocks: seq<bytes>): bytes {
    if blocks == [] then [] else Joined(DropLast(blocks)) + Last(blocks)
  }

  function IdentifierBlocks(s: Script): (blocks: seq<bytes>)
    requires s.Valid()
    ensures |blocks| == |s.identifiers|
  {
    seq(|s.identifiers|, i requires 0 <= i < |s.identifiers| => IdentifierBytes(s.identifiers[i]))
  }

  function ConstantBlocks(s: Script): (blocks: seq<bytes>)
    requires s.Valid()
    ensures |blocks| == |s.constants|
  {
    seq(|s.constants|, i requires 0 <= i < |s.constants| => ConstantBytes(s.constants[i]))
  }

  function TokenBlocks(s: Script): (blocks: seq<bytes>)
    requires s.Valid()
    ensures |blocks| == |s.tokens|
  {
    seq(|s.tokens|, i requires 0 <= i < |s.tokens| => TokenBytes(s.tokens[i]))
  }

  function CountBytes(s: Script): (b: bytes)
    requires s.Valid()
    ensures |b| == 16
  {
    Four(|s.identifiers|) + Four(|s.constants|) + Four(|s.lines|) + Four(|s.tokens|)
  }

  function ScriptBytes(s: Script): bytes
    requires s.Valid()
  {
    CountBytes(s) + Joined(IdentifierBlocks(s)) + Joined(ConstantBlocks(s)) + Joined(s.lines) + Joined(TokenBlocks(s))
  }

  // ---- pieces ----

  lemma {:induction false} FourValue(v: u32)
    ensures
      v == v % 0x100 + 0x100 * (v / 0x100 % 0x100) + 0x1_0000 * (v / 0x1_0000 % 0x100) + 0x100_0000 * (v / 0x100_0000)
  {
    var a := v / 0x100;
    var b := a / 0x100;
    assert v / 0x1_0000 == b && v / 0x100_0000 == b / 0x100;
  }

  lemma {:induction false} FourRead(b: bytes, p: nat, v: u32)
    requires p + 4 <= |b| && b[p..p + 4] == Four(v)
    ensures Word(b, p) == v
  {
    var s := b[p..p + 4];
    assert b[p] == s[0] && b[p + 1] == s[1] && b[p + 2] == s[2] && b[p + 3] == s[3];
    FourValue(v);
  }

  lemma {:induction false} JoinedStep(blocks: seq<bytes>, i: nat)
    requires i < |blocks|
    ensures Joined(blocks[..i + 1]) == Joined(blocks[..i]) + blocks[i]
  {
    Extend(blocks, i);
  }

  lemma {:induction false} JoinedPrefix(blocks: seq<bytes>, i: nat)
    requires i <= |blocks|
    ensures Joined(blocks[..i]) <= Joined(blocks)
    decreases |blocks| - i
  {
    hide Joined;
    if i == |blocks| {
      Whole(blocks);
    } else {
      JoinedStep(blocks, i);
      JoinedPrefix(blocks, i + 1);
    }
  }

  /** The joined blocks stand at `start`. */
  predicate Stand(b: bytes, start: nat, blocks: seq<bytes>) {
    start + |Joined(blocks)| <= |b| && b[start..start + |Joined(blocks)|] == Joined(blocks)
  }

  /** Where block `i` starts. */
  function PlaceOf(start: nat, blocks: seq<bytes>, i: nat): nat
    requires i <= |blocks|
  {
    start + |Joined(blocks[..i])|
  }

  lemma {:induction false} Placed(b: bytes, start: nat, blocks: seq<bytes>, i: nat)
    requires Stand(b, start, blocks) && i < |blocks|
    ensures PlaceOf(start, blocks, i + 1) == PlaceOf(start, blocks, i) + |blocks[i]|
    ensures PlaceOf(start, blocks, i + 1) <= start + |Joined(blocks)| <= |b|
    ensures
      var p := PlaceOf(start, blocks, i);
      b[p..p + |blocks[i]|] == blocks[i]
  {
    hide Joined;
    var all, at, n := Joined(blocks), |Joined(blocks[..i])|, |blocks[i]|;
    JoinedStep(blocks, i);
    JoinedPrefix(blocks, i + 1);
    OfPrefix(Joined(blocks[..i + 1]), all, at, at + n);
    OfSlice(b, start, |all|, at, at + n);
  }

  lemma {:induction false} PlaceEnds(start: nat, blocks: seq<bytes>)
    ensures PlaceOf(start, blocks, 0) == start && PlaceOf(start, blocks, |blocks|) == start + |Joined(blocks)|
  {
    Whole(blocks);
  }

  // ---- one constant, one token ----

  /** Kinds that no constant here has, and constants that are cut off, are refused. */
  lemma {:induction false} UnknownRefused(b: bytes, p: nat)
    requires p <= |b|
    ensures p + ConstantSize(b, p) <= |b|
    ensures p + 4 <= |b| && Word(b, p) % 0x100 !in {0, 1, 2, 3, 4, 21} ==> ConstantSize(b, p) == 0
  {
    hide Word;
  }

  lemma {:induction false} Front(b: bytes, p: nat, head: bytes, rest: bytes)
    requires p + |head| + |rest| <= |b| && b[p..p + |head| + |rest|] == head + rest
    ensures b[p..p + |head|] == head && b[p + |head|..p + |head| + |rest|] == rest
  {
    OfSlice(b, p, |head| + |rest|, 0, |head|);
    OfSlice(b, p, |head| + |rest|, |head|, |head| + |rest|);
  }

  /** The header word of a constant. */
  function HeaderOf(c: Constant): u32
    requires c.Valid()
  {
    match c
    case Nothing => 0
    case Truth(_) => 1
    case Small(_) => 2
    case Large(_) => 0x1_0002
    case Single(_) => 3
    case Double(_) => 0x1_0003
    case Text(isName, _) => if isName then 21 else 4
    case Flagged(kind, flags, _) => (kind as int) + 0x100 * flags
  }

  /** The text of a constant, if it is one. */
  function TextOf(c: Constant): Option<bytes> {
    match c
    case Text(_, text) => Some(text)
    case Flagged(kind, _, rest) => if kind == 4 || kind == 21 then Some(rest) else None
    case _ => None
  }

  /** What follows the header. */
  function BodyOf(c: Constant): bytes
    requires c.Valid()
  {
    match c
    case Nothing => []
    case Truth(v) => Four(if v then 1 else 0)
    case Small(i) => Four(Unsigned32(i))
    case Large(j) => Eight(Unsigned64(j))
    case Single(raw) => raw
    case Double(raw) => raw
    case Text(_, text) => Four(|text|) + (text + Zeros(Padding(|text|)))
    case Flagged(kind, _, rest) =>
      if kind == 4 || kind == 21 then Four(|rest|) + (rest + Zeros(Padding(|rest|))) else rest
  }

  lemma {:induction false} ConstantSplit(c: Constant)
    requires c.Valid()
    ensures ConstantBytes(c) == Four(HeaderOf(c)) + BodyOf(c)
  {
    hide Four;
    if TextOf(c).Some? {
      var text := TextOf(c).value;
      Associative(Four(HeaderOf(c)), Four(|text|), text);
      Associative(Four(HeaderOf(c)), Four(|text|) + text, Zeros(Padding(|text|)));
      Associative(Four(|text|), text, Zeros(Padding(|text|)));
    }
  }

  predicate ConstantStands(b: bytes, p: nat, c: Constant)
    requires c.Valid()
  {
    p + |ConstantBytes(c)| <= |b| && b[p..p + |ConstantBytes(c)|] == ConstantBytes(c)
  }

  lemma {:induction false} PaddedSize(n: nat)
    ensures n + Padding(n) == (n + 3) / 4 * 4
  {
  }

  /** The parser tells the kind by the low byte, and the wide numbers by bit 16. */
  lemma {:induction false} HeaderKind(c: Constant)
    requires c.Valid()
    ensures IsText(HeaderOf(c)) <==> TextOf(c).Some?
    ensures TextOf(c).None? ==>
      HeaderOf(c) % 0x100 == match c
                             case Nothing => 0
                             case Truth(_) => 1
                             case Small(_) => 2
                             case Large(_) => 2
                             case Single(_) => 3
                             case Double(_) => 3
                             case Text(_, _) => 4
                             case Flagged(kind, _, _) => kind
    ensures c.Flagged? ==> (Flag64(HeaderOf(c)) <==> c.flags / 0x100 % 2 == 1)
  {
    if c.Flagged? {
      assert HeaderOf(c) / 0x1_0000 == c.flags / 0x100;
    }
  }

  lemma {:induction false} WideKind(c: Constant)
    requires c.Valid()
    ensures c.Large? || c.Double? ==> Flag64(HeaderOf(c))
    ensures c.Small? || c.Single? ==> !Flag64(HeaderOf(c))
    ensures IsText(HeaderOf(c)) <==> HeaderOf(c) % 0x100 == 4 || HeaderOf(c) % 0x100 == 21
  {
  }

  lemma {:induction false} TextRead(b: bytes, p: nat, c: Constant)
    requires c.Valid() && TextOf(c).Some? && p + |BodyOf(c)| <= |b| && b[p..p + |BodyOf(c)|] == BodyOf(c)
    ensures
      var text := TextOf(c).value;
      p + 4 + |text| <= |b| && Word(b, p) == |text| && b[p + 4..p + 4 + |text|] == text
  {
    hide Four, Word;
    var text := TextOf(c).value;
    var n, pad := |text|, Zeros(Padding(|text|));
    Front(b, p, Four(n), text + pad);
    FourRead(b, p, n);
    Front(b, p + 4, text, pad);
  }

  lemma {:induction false} SizeIs(b: bytes, p: nat, c: Constant)
    requires c.Valid() && p + 4 + |BodyOf(c)| <= |b| && Word(b, p) == HeaderOf(c)
    requires TextOf(c).Some? ==> p + 8 <= |b| && Word(b, p + 4) == |TextOf(c).value|
    ensures ConstantSize(b, p) == 4 + |BodyOf(c)|
  {
    hide Four, Word, HeaderOf, IsText, Flag64;
    HeaderKind(c);
    WideKind(c);
    if TextOf(c).Some? {
      PaddedSize(|TextOf(c).value|);
    }
  }

  /** The parser sees the header, for a text its length, and the size. */
  lemma {:induction false} ConstantRead(b: bytes, p: nat, c: Constant)
    requires c.Valid() && ConstantStands(b, p, c)
    ensures p + 4 + |BodyOf(c)| <= |b| && b[p + 4..p + 4 + |BodyOf(c)|] == BodyOf(c)
    ensures Word(b, p) == HeaderOf(c) && ConstantSize(b, p) == |ConstantBytes(c)| >= 4
    ensures TextOf(c).Some? ==>
      var text := TextOf(c).value;
      p + 8 + |text| <= |b| && Word(b, p + 4) == |text| && b[p + 8..p + 8 + |text|] == text
  {
    hide Four, Word, ConstantBytes, ConstantSize, HeaderOf, BodyOf;
    ConstantSplit(c);
    Front(b, p, Four(HeaderOf(c)), BodyOf(c));
    FourRead(b, p, HeaderOf(c));
    if TextOf(c).Some? {
      TextRead(b, p + 4, c);
    }
    SizeIs(b, p, c);
  }

  lemma {:induction false} WideWord(kind: byte, index: nat)
    requires kind < 0x80 && index < 0x100_0000
    ensures
      var low := (kind as int) + 0x80;
      var word: u32 :=
        low + 0x100 * (index % 0x100) + 0x1_0000 * (index / 0x100 % 0x100) + 0x100_0000 * (index / 0x1_0000);
      word / 0x100 == index && word % 0x80 == kind
  {
    IndexValue(index);
    WordOf((kind as int) + 0x80, index);
  }

  lemma {:induction false} IndexValue(index: nat)
    ensures index == index % 0x100 + 0x100 * (index / 0x100 % 0x100) + 0x1_0000 * (index / 0x1_0000)
  {
    var a := index / 0x100;
    assert index / 0x1_0000 == a / 0x100;
  }

  lemma {:induction false} WordOf(low: nat, index: nat)
    requires 0x80 <= low < 0x100
    ensures (low + 0x100 * index) / 0x100 == index && (low + 0x100 * index) % 0x80 == low - 0x80
  {
    assert low + 0x100 * index == (low - 0x80) + 0x80 * (2 * index + 1);
  }

  /** The parser sees a token's length, whether it is a literal, and which constant it names. */
  lemma {:induction false} TokenRead(b: bytes, p: nat, t: Token)
    requires t.Valid() && p + |TokenBytes(t)| <= |b| && b[p..p + |TokenBytes(t)|] == TokenBytes(t)
    ensures p < |b| && TokenLength(b, p) == |TokenBytes(t)|
    ensures IsLiteral(TokenWord(b, p)) <==> t.Names().Some?
    ensures t.Names().Some? ==> TokenWord(b, p) / 0x100 == t.Names().value
  {
    var s := b[p..p + |TokenBytes(t)|];
    assert b[p] == s[0];
    if t.Wide? {
      assert b[p + 1] == s[1] && b[p + 2] == s[2] && b[p + 3] == s[3];
      WideWord(t.kind, t.index);
    }
  }

  // ---- the whole buffer ----

  /** Where the parts of the written buffer are. */
  function LayoutOf(s: Script): Layout
    requires s.Valid()
  {
    var start := 16 + |Joined(IdentifierBlocks(s))|;
    var end := start + |Joined(ConstantBlocks(s))|;
    Layout(|s.constants|, |s.tokens|, start, end, end + 16 * |s.lines|)
  }

  lemma {:induction false} LinesSize(lines: seq<bytes>)
    requires forall i :: 0 <= i < |lines| ==> |lines[i]| == 16
    ensures |Joined(lines)| == 16 * |lines|
  {
    if lines != [] {
      LinesSize(DropLast(lines));
    }
  }

  lemma {:induction false} StandIn(head: bytes, blocks: seq<bytes>, rest: bytes)
    ensures Stand(head + Joined(blocks) + rest, |head|, blocks)
  {
  }

  lemma {:induction false} Regroup(c: bytes, i: bytes, k: bytes, n: bytes, t: bytes)
    ensures c + i + k + n + t == c + i + (k + n + t) == c + i + k + (n + t) == c + (i + k + n + t)
    ensures c + i + k + n + t == c + i + k + n + t + []
  {
    Associative(c + i, k, n);
    Associative(c + i, k + n, t);
    Associative(c + i + k, n, t);
    Associative(c, i, k + n + t);
    Associative(i, k, n);
    Associative(i, k + n, t);
  }

  lemma {:induction false} FiveStand(c: bytes, ids: seq<bytes>, consts: seq<bytes>, n: bytes, toks: seq<bytes>)
    requires |c| == 16
    ensures
      var b := c + Joined(ids) + Joined(consts) + n + Joined(toks);
      var k := 16 + |Joined(ids)|;
      var t := k + |Joined(consts)| + |n|;
      && Stand(b, 16, ids) && Stand(b, k, consts) && Stand(b, t, toks) && t + |Joined(toks)| == |b| && b[..16] == c
  {
    hide Joined, Stand;
    var i, k, t := Joined(ids), Joined(consts), Joined(toks);
    Regroup(c, i, k, n, t);
    StandIn(c, ids, k + n + t);
    StandIn(c + i, consts, n + t);
    StandIn(c + i + k + n, toks, []);
  }

  lemma {:induction false} PartsStand(s: Script)
    requires s.Valid()
    ensures
      var b, l := ScriptBytes(s), LayoutOf(s);
      && Stand(b, 16, IdentifierBlocks(s)) && Stand(b, l.constStart, ConstantBlocks(s))
      && Stand(b, l.tokenStart, TokenBlocks(s)) && l.tokenStart + |Joined(TokenBlocks(s))| == |b|
      && b[..16] == CountBytes(s)
  {
    hide Joined, Stand, CountBytes, IdentifierBlocks, ConstantBlocks, TokenBlocks;
    LinesSize(s.lines);
    FiveStand(CountBytes(s), IdentifierBlocks(s), ConstantBlocks(s), Joined(s.lines), TokenBlocks(s));
  }

  lemma {:induction false} CountsRead(s: Script)
    requires s.Valid()
    ensures
      var b := ScriptBytes(s);
      && |b| >= 16 && Word(b, 0) == |s.identifiers| && Word(b, 4) == |s.constants|
      && Word(b, 8) == |s.lines| && Word(b, 12) == |s.tokens|
  {
    hide Word, Four, Joined, ScriptBytes, Stand;
    var b := ScriptBytes(s);
    PartsStand(s);
    FourParts(Four(|s.identifiers|), Four(|s.constants|), Four(|s.lines|), Four(|s.tokens|));
    OfSlice(b, 0, 16, 0, 4);
    OfSlice(b, 0, 16, 4, 8);
    OfSlice(b, 0, 16, 8, 12);
    OfSlice(b, 0, 16, 12, 16);
    FourRead(b, 0, |s.identifiers|);
    FourRead(b, 4, |s.constants|);
    FourRead(b, 8, |s.lines|);
    FourRead(b, 12, |s.tokens|);
  }

  lemma {:induction false} IdentifierRead(b: bytes, p: nat, id: seq<char32>)
    requires |id| < 0x1_0000_0000 && p + 4 + 4 * |id| <= |b|
    requires b[p..p + 4 + 4 * |id|] == IdentifierBytes(id)
    ensures Word(b, p) == |id|
  {
    hide Word, Four;
    Front(b, p, Four(|id|), CharBytes(id));
    FourRead(b, p, |id|);
  }

  lemma {:induction false} IdentifierPlaced(s: Script, i: nat)
    requires s.Valid() && i < |s.identifiers|
    ensures
      var b, p, chars := ScriptBytes(s), PlaceOf(16, IdentifierBlocks(s), i), |s.identifiers[i]|;
      && PlaceOf(16, IdentifierBlocks(s), i + 1) == p + 4 + 4 * chars <= |b| && Word(b, p) == chars
  {
    hide Word, Joined, ScriptBytes, Stand, IdentifierBytes;
    PartsStand(s);
    Placed(ScriptBytes(s), 16, IdentifierBlocks(s), i);
    IdentifierRead(ScriptBytes(s), PlaceOf(16, IdentifierBlocks(s), i), s.identifiers[i]);
  }

  lemma {:induction false} IdentifiersRead(s: Script, n: nat)
    requires s.Valid() && n <= |s.identifiers| && |ScriptBytes(s)| >= 16
    ensures IdentifiersEnd(ScriptBytes(s), n) == Some(PlaceOf(16, IdentifierBlocks(s), n))
    decreases n
  {
    hide Word, ScriptBytes, PlaceOf, IdentifierBlocks;
    if n == 0 {
      PlaceEnds(16, IdentifierBlocks(s));
    } else {
      IdentifiersRead(s, n - 1);
      IdentifierPlaced(s, n - 1);
    }
  }

  lemma {:induction false} ConstantPlaced(s: Script, i: nat)
    requires s.Valid() && i < |s.constants|
    ensures
      var at, blocks := LayoutOf(s).constStart, ConstantBlocks(s);
      && ConstantStands(ScriptBytes(s), PlaceOf(at, blocks, i), s.constants[i])
      && PlaceOf(at, blocks, i + 1) == PlaceOf(at, blocks, i) + |ConstantBytes(s.constants[i])|
  {
    hide Joined, ScriptBytes, Stand, ConstantBytes;
    PartsStand(s);
    Placed(ScriptBytes(s), LayoutOf(s).constStart, ConstantBlocks(s), i);
  }

  lemma {:induction false} ConstantsInside(s: Script, n: nat)
    requires s.Valid() && n <= |s.constants|
    ensures LayoutOf(s).constStart <= |ScriptBytes(s)|
    ensures PlaceOf(LayoutOf(s).constStart, ConstantBlocks(s), n) <= |ScriptBytes(s)|
  {
    hide ScriptBytes, Joined;
    PartsStand(s);
    JoinedPrefix(ConstantBlocks(s), n);
  }

  lemma {:induction false} ConstantSized(s: Script, i: nat)
    requires s.Valid() && i < |s.constants|
    ensures
      var b, at, blocks := ScriptBytes(s), LayoutOf(s).constStart, ConstantBlocks(s);
      var p := PlaceOf(at, blocks, i);
      p <= |b| && ConstantSize(b, p) > 0 && PlaceOf(at, blocks, i + 1) == p + ConstantSize(b, p)
  {
    hide Joined, ScriptBytes, ConstantBytes, ConstantSize, Word, BodyOf;
    ConstantPlaced(s, i);
    ConstantRead(ScriptBytes(s), PlaceOf(LayoutOf(s).constStart, ConstantBlocks(s), i), s.constants[i]);
  }

  lemma {:induction false} ConstantsRead(s: Script, n: nat)
    requires s.Valid() && n <= |s.constants|
    ensures
      var l := LayoutOf(s);
      && l.constStart <= |ScriptBytes(s)|
      && ConstantsEnd(ScriptBytes(s), l.constStart, n) == Some(PlaceOf(l.constStart, ConstantBlocks(s), n))
    decreases n
  {
    hide ScriptBytes, ConstantSize, PlaceOf, ConstantBlocks, LayoutOf;
    ConstantsInside(s, n);
    if n == 0 {
      PlaceEnds(LayoutOf(s).constStart, ConstantBlocks(s));
    } else {
      ConstantsRead(s, n - 1);
      ConstantSized(s, n - 1);
    }
  }

  lemma {:induction false} TokenPlaced(s: Script, n: nat)
    requires s.Valid() && n < |s.tokens|
    ensures
      var b, at, blocks := ScriptBytes(s), LayoutOf(s).tokenStart, TokenBlocks(s);
      var p := PlaceOf(at, blocks, n);
      && p < |b| && p + TokenLength(b, p) <= |b| && PlaceOf(at, blocks, n + 1) == p + TokenLength(b, p)
      && (IsLiteral(TokenWord(b, p)) <==> s.tokens[n].Names().Some?)
      && (s.tokens[n].Names().Some? ==> TokenWord(b, p) / 0x100 == s.tokens[n].Names().value)
  {
    hide Joined, ScriptBytes, Stand, TokenBytes;
    var at, blocks := LayoutOf(s).tokenStart, TokenBlocks(s);
    PartsStand(s);
    Placed(ScriptBytes(s), at, blocks, n);
    TokenRead(ScriptBytes(s), PlaceOf(at, blocks, n), s.tokens[n]);
  }

  lemma {:induction false} TokensRead(s: Script, n: nat)
    requires s.Valid() && n <= |s.tokens|
    ensures
      var b, l := ScriptBytes(s), LayoutOf(s);
      && l.tokenStart <= |b|
      && TokensEnd(b, l.tokenStart, n, l.constants) ==
         if NamesOk(s.tokens, n, |s.constants|) then Some(PlaceOf(l.tokenStart, TokenBlocks(s), n)) else None
    decreases n
  {
    hide Joined, ScriptBytes, TokenLength, TokenWord, IsLiteral;
    var start := LayoutOf(s).tokenStart;
    PartsStand(s);
    PlaceEnds(start, TokenBlocks(s));
    if n > 0 {
      TokensRead(s, n - 1);
      TokenPlaced(s, n - 1);
    }
  }

  /** A written script parses just when its literals name constants it has, and then to its own layout. */
  lemma {:induction false} ParsedIs(s: Script, l: Layout)
    requires s.Valid()
    ensures Parsed(ScriptBytes(s), l) <==> l == LayoutOf(s) && s.Closed()
  {
    hide Joined, ScriptBytes, IdentifiersEnd, ConstantsEnd, TokensEnd, Word, NamesOk;
    CountsRead(s);
    PartsStand(s);
    IdentifiersRead(s, |s.identifiers|);
    ConstantsRead(s, |s.constants|);
    TokensRead(s, |s.tokens|);
    PlaceEnds(16, IdentifierBlocks(s));
    PlaceEnds(LayoutOf(s).constStart, ConstantBlocks(s));
    PlaceEnds(LayoutOf(s).tokenStart, TokenBlocks(s));
  }

  /** Every constant stands where the parser looks for it. */
  lemma {:induction false} ConstantAt(s: Script, i: nat)
    requires s.Valid() && i < |s.constants|
    ensures
      var b, l := ScriptBytes(s), LayoutOf(s);
      && ConstantsAt(b, l)
      && OffsetOf(b, l, i) == PlaceOf(l.constStart, ConstantBlocks(s), i)
      && ConstantStands(b, OffsetOf(b, l, i), s.constants[i])
  {
    hide Joined, ScriptBytes, ConstantStands, ConstantsEnd;
    ConstantsRead(s, |s.constants|);
    ConstantsRead(s, i);
    ConstantPlaced(s, i);
    PlaceEnds(LayoutOf(s).constStart, ConstantBlocks(s));
  }

  lemma {:induction false} UsesRead(s: Script, n: nat, c: nat)
    requires s.Valid() && s.Closed() && n <= |s.tokens|
    ensures
      var b, l := ScriptBytes(s), LayoutOf(s);
      && l.tokenStart <= |b| && TokensEnd(b, l.tokenStart, n, l.constants).Some?
      && Uses(b, l.tokenStart, n, l.constants, c) == NameCount(s.tokens, n, c)
    decreases n
  {
    hide ScriptBytes, TokensEnd, TokenLength, TokenWord, IsLiteral, Joined;
    TokensRead(s, n);
    if n > 0 {
      UsesRead(s, n - 1, c);
      TokensRead(s, n - 1);
      TokenPlaced(s, n - 1);
    }
  }

  /** The use count of a constant is the number of tokens that name it. */
  lemma {:induction false} UsesAre(s: Script, c: nat)
    requires s.Valid() && s.Closed()
    ensures Parsed(ScriptBytes(s), LayoutOf(s))
    ensures UsesOf(ScriptBytes(s), LayoutOf(s), c) == NameCount(s.tokens, |s.tokens|, c)
  {
    hide ScriptBytes, Uses, Parsed;
    ParsedIs(s, LayoutOf(s));
    UsesRead(s, |s.tokens|, c);
  }
}
