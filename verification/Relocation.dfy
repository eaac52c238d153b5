/** Relocating a loaded module and resolving its imports, over a load zone seen as 64-bit words. */
module Relocation {
  import opened Bytes
  import opened Relr

  type bytes = seq<byte>

  datatype Bind = Local | Global | Weak

  /** A dynamic symbol; an undefined one is an import. */
  datatype Symbol = Symbol(name: bytes, defined: bool, value: u64, bind: Bind)

  datatype Kind = Abs64 | GlobDat | JumpSlot | Relative | Unknown

  /** A relocation of word `slot`, that is of offset `8 * slot`. */
  datatype Rela = Rela(slot: nat, addend: u64, sym: nat, kind: Kind)

  datatype Shim = Shim(name: bytes, func: u64)

  /** What a module keeps: its address, its symbols and its relocations, section after section. */
  datatype Module = Module(base: u64, symbols: seq<Symbol>, relas: seq<Rela>)

  /** Every relocation speaks about a word of the zone and a symbol of the module. */
  predicate InBounds(m: Module, words: nat) {
    words <= 0x2000_0000_0000_0000 &&
    forall j :: 0 <= j < |m.relas| ==> m.relas[j].slot < words && m.relas[j].sym < |m.symbols|
  }

  // ---- symbol lookup ----

  predicate Exports(s: Symbol, name: bytes) { s.defined && s.bind != Local && s.name == name }

  /** The first export of that name from symbol `i` on, or 0. */
  function ExportFrom(m: Module, name: bytes, i: nat): u64
    requires i <= |m.symbols|
    decreases |m.symbols| - i, m
  {
    if i == |m.symbols| then 0
    else if Exports(m.symbols[i], name) then AddWrap(m.base, m.symbols[i].value)
    else ExportFrom(m, name, i + 1)
  }

  function ShimFrom(shims: seq<Shim>, name: bytes, k: nat): Option<u64>
    requires k <= |shims|
    decreases |shims| - k, name
  {
    if k == |shims| then None else if shims[k].name == name then Some(shims[k].func) else ShimFrom(shims, name, k + 1)
  }

  /** The first module from `j` on, other than `self`, whose export is not at address 0. */
  function OtherFrom(list: seq<Module>, self: nat, name: bytes, j: nat): u64
    requires j <= |list|
    decreases |list| - j, name
  {
    if j == |list| then 0
    else if j != self && ExportFrom(list[j], name, 0) != 0 then ExportFrom(list[j], name, 0)
    else OtherFrom(list, self, name, j + 1)
  }

  function Lookup(list: seq<Module>, self: nat, shims: seq<Shim>, name: bytes): u64 {
    var shim := ShimFrom(shims, name, 0);
    if shim.Some? then shim.value else OtherFrom(list, self, name, 0)
  }

  /** `so_lookup_export`. */
  method LookupExport(m: Module, name: bytes) returns (addr: u64)
    ensures addr == ExportFrom(m, name, 0)
  {
    for i := 0 to |m.symbols|
      invariant ExportFrom(m, name, 0) == ExportFrom(m, name, i)
    {
      if Exports(m.symbols[i], name) {
        return AddWrap(m.base, m.symbols[i].value);
      }
    }
    return 0;
  }

  /** `so_resolve_symbol`. */
  method ResolveSymbol(list: seq<Module>, self: nat, shims: seq<Shim>, name: bytes) returns (addr: u64)
    ensures addr == Lookup(list, self, shims, name)
  {
    for k := 0 to |shims|
      invariant ShimFrom(shims, name, 0) == ShimFrom(shims, name, k)
    {
      if shims[k].name == name {
        return shims[k].func;
      }
    }
    for j := 0 to |list|
      invariant OtherFrom(list, self, name, 0) == OtherFrom(list, self, name, j)
    {
      if j != self {
        addr := LookupExport(list[j], name);
        if addr != 0 {
          return addr;
        }
      }
    }
    return 0;
  }

  /** A module with one symbol: global and weak definitions are exports, local and undefined symbols are not. */
  lemma {:induction false} OneSymbol(base: u64, s: Symbol, name: bytes)
    ensures
      ExportFrom(Module(base, [s], []), name, 0) ==
        if s.name == name && s.defined && (s.bind == Global || s.bind == Weak) then AddWrap(base, s.value) else 0
  {
    assert ExportFrom(Module(base, [s], []), name, 1) == 0;
  }

  lemma {:induction false} SkipShims(shims: seq<Shim>, name: bytes, i: nat, k: nat)
    requires i <= k <= |shims| && forall j :: i <= j < k ==> shims[j].name != name
    ensures ShimFrom(shims, name, i) == ShimFrom(shims, name, k)
    decreases k - i
  {
    if i < k {
      SkipShims(shims, name, i + 1, k);
    }
  }

  lemma {:induction false} SkipSymbols(m: Module, name: bytes, i: nat, k: nat)
    requires i <= k <= |m.symbols| && forall j :: i <= j < k ==> !Exports(m.symbols[j], name)
    ensures ExportFrom(m, name, i) == ExportFrom(m, name, k)
    decreases k - i
  {
    if i < k {
      SkipSymbols(m, name, i + 1, k);
    }
  }

  /** Module `j` gives an address for the name: that of its first export of it, unless that is 0. */
  predicate Offers(m: Module, name: bytes) { ExportFrom(m, name, 0) != 0 }

  lemma {:induction false} SkipModules(list: seq<Module>, self: nat, name: bytes, i: nat, k: nat)
    requires i <= k <= |list| && forall j :: i <= j < k && j != self ==> !Offers(list[j], name)
    ensures OtherFrom(list, self, name, i) == OtherFrom(list, self, name, k)
    decreases k - i
  {
    if i < k {
      SkipModules(list, self, name, i + 1, k);
    }
  }

  /** The first shim of that name wins over every module. */
  lemma {:induction false} ShimWins(list: seq<Module>, self: nat, shims: seq<Shim>, name: bytes, k: nat)
    requires k < |shims| && shims[k].name == name && forall j :: 0 <= j < k ==> shims[j].name != name
    ensures Lookup(list, self, shims, name) == shims[k].func
  {
    SkipShims(shims, name, 0, k);
  }

  /** Without a shim, the first export of the first other module that offers one, in load order. */
  lemma {:induction false} FirstModuleWins(list: seq<Module>, self: nat, shims: seq<Shim>, name: bytes, j: nat, i: nat)
    requires forall k :: 0 <= k < |shims| ==> shims[k].name != name
    requires j < |list| && j != self && forall l :: 0 <= l < j && l != self ==> !Offers(list[l], name)
    requires i < |list[j].symbols| && Exports(list[j].symbols[i], name)
    requires forall l :: 0 <= l < i ==> !Exports(list[j].symbols[l], name)
    requires AddWrap(list[j].base, list[j].symbols[i].value) != 0
    ensures Lookup(list, self, shims, name) == AddWrap(list[j].base, list[j].symbols[i].value)
  {
    SkipShims(shims, name, 0, |shims|);
    SkipModules(list, self, name, 0, j);
    SkipSymbols(list[j], name, 0, i);
  }

  predicate FirstShim(shims: seq<Shim>, name: bytes, k: nat) {
    k < |shims| && shims[k].name == name && forall j :: 0 <= j < k ==> shims[j].name != name
  }

  /** A name is missing exactly when its first shim is at 0, or it has no shim and no other module offers it. */
  lemma {:induction false} MissingExactly(list: seq<Module>, self: nat, shims: seq<Shim>, name: bytes)
    ensures Lookup(list, self, shims, name) == 0 <==>
      || (exists k: nat :: FirstShim(shims, name, k) && shims[k].func == 0)
      || ((forall k :: 0 <= k < |shims| ==> shims[k].name != name) &&
          (forall j :: 0 <= j < |list| && j != self ==> !Offers(list[j], name)))
  {
    hide Offers, OtherFrom, ShimFrom;
    ShimFound(shims, name, 0);
    OtherFound(list, self, name, 0);
    if ShimFrom(shims, name, 0).Some? {
      var k :| 0 <= k < |shims| && shims[k].name == name && forall i :: 0 <= i < k ==> shims[i].name != name;
      ShimWins(list, self, shims, name, k);
      assert FirstShim(shims, name, k);
    }
  }

  lemma {:induction false} ShimFound(shims: seq<Shim>, name: bytes, k: nat)
    requires k <= |shims|
    ensures ShimFrom(shims, name, k).None? <==> forall j :: k <= j < |shims| ==> shims[j].name != name
    ensures ShimFrom(shims, name, k).Some? ==>
      exists j :: k <= j < |shims| && shims[j].name == name && ShimFrom(shims, name, k) == Some(shims[j].func)
                  && forall i :: k <= i < j ==> shims[i].name != name
    decreases |shims| - k
  {
    if k < |shims| {
      ShimFound(shims, name, k + 1);
    }
  }

  lemma {:induction false} OtherFound(list: seq<Module>, self: nat, name: bytes, j: nat)
    requires j <= |list|
    ensures OtherFrom(list, self, name, j) == 0 <==> forall l :: j <= l < |list| && l != self ==> !Offers(list[l], name)
    decreases |list| - j
  {
    if j < |list| {
      OtherFound(list, self, name, j + 1);
    }
  }

  // ---- relocating ----

  /** What `so_relocate` stores, if anything. */
  function LinkTime(m: Module, r: Rela): Option<u64>
    requires r.sym < |m.symbols|
  {
    var s := m.symbols[r.sym];
    match r.kind
    case Abs64 => Some(if s.defined then AddWrap(AddWrap(m.base, s.value), r.addend) else r.addend)
    case Relative => Some(AddWrap(m.base, r.addend))
    case GlobDat | JumpSlot => if s.defined then Some(AddWrap(AddWrap(m.base, s.value), r.addend)) else None
    case Unknown => None
  }

  /** The relocation of an imported symbol. */
  predicate Import(m: Module, r: Rela)
    requires r.sym < |m.symbols|
  {
    !m.symbols[r.sym].defined && (r.kind == Abs64 || r.kind == GlobDat || r.kind == JumpSlot)
  }

  /** What `so_resolve` stores, if anything, when the name has address `addr` (0 for none). */
  function RunTime(m: Module, r: Rela, addr: u64, taint: bool): Option<u64>
    requires r.sym < |m.symbols| && 8 * r.slot < 0x1_0000_0000_0000_0000
  {
    if !Import(m, r) then None
    else if addr != 0 then Some(AddWrap(addr, r.addend))
    else if m.symbols[r.sym].bind == Weak then Some(0)
    else if taint then Some(8 * r.slot)
    else None
  }

  /** Everything name lookup depends on. */
  datatype World = World(list: seq<Module>, self: nat, shims: seq<Shim>, taint: bool)

  predicate Valid(w: World, words: nat) { w.self < |w.list| && InBounds(w.list[w.self], words) }

  function Resolved(w: World, j: nat): Option<u64>
    requires w.self < |w.list| && j < |w.list[w.self].relas|
    requires InBounds(w.list[w.self], 0x2000_0000_0000_0000)
  {
    var m := w.list[w.self];
    var r := m.relas[j];
    RunTime(m, r, Lookup(w.list, w.self, w.shims, m.symbols[r.sym].name), w.taint)
  }

  function Store(mem: seq<u64>, slot: nat, v: Option<u64>): (d: seq<u64>)
    requires slot < |mem|
    ensures |d| == |mem|
  {
    if v.Some? then mem[slot := v.value] else mem
  }

  /** The zone after the first `n` relocations of the first phase. */
  function Relocated(m: Module, mem: seq<u64>, n: nat): (d: seq<u64>)
    requires InBounds(m, |mem|) && n <= |m.relas|
    ensures |d| == |mem|
    decreases n, m
  {
    if n == 0 then mem else Store(Relocated(m, mem, n - 1), m.relas[n - 1].slot, LinkTime(m, m.relas[n - 1]))
  }

  lemma {:induction false} Wider(m: Module, words: nat)
    requires InBounds(m, words)
    ensures InBounds(m, 0x2000_0000_0000_0000)
  {
  }

  /** The zone after the first `n` relocations of the second phase. */
  function Linked(w: World, mem: seq<u64>, n: nat): (d: seq<u64>)
    requires Valid(w, |mem|) && n <= |w.list[w.self].relas|
    ensures |d| == |mem|
    decreases n, w
  {
    Wider(w.list[w.self], |mem|);
    if n == 0 then mem else Store(Linked(w, mem, n - 1), w.list[w.self].relas[n - 1].slot, Resolved(w, n - 1))
  }

  /** The first phase: false for a relocation it does not know, where the program ends. */
  method RelocateRelas(mem: array<u64>, m: Module) returns (ok: bool)
    requires InBounds(m, mem.Length)
    modifies mem
    ensures ok <==> forall j :: 0 <= j < |m.relas| ==> m.relas[j].kind != Unknown
    ensures ok ==> mem[..] == Relocated(m, old(mem[..]), |m.relas|)
  {
    for j := 0 to |m.relas|
      invariant forall i :: 0 <= i < j ==> m.relas[i].kind != Unknown
      invariant mem[..] == Relocated(m, old(mem[..]), j)
    {
      var r := m.relas[j];
      var s := m.symbols[r.sym];
      match r.kind
      case Abs64 =>
        if !s.defined {
          mem[r.slot] := r.addend;
        } else {
          mem[r.slot] := AddWrap(AddWrap(m.base, s.value), r.addend);
        }
      case Relative =>
        mem[r.slot] := AddWrap(m.base, r.addend);
      case GlobDat | JumpSlot =>
        if s.defined {
          mem[r.slot] := AddWrap(AddWrap(m.base, s.value), r.addend);
        }
      case Unknown =>
        return false;
    }
    return true;
  }

  /** One relocation of the second phase. */
  method ResolveOne(mem: array<u64>, w: World, j: nat) returns (missing: bool)
    requires Valid(w, mem.Length) && j < |w.list[w.self].relas| && InBounds(w.list[w.self], 0x2000_0000_0000_0000)
    modifies mem
    ensures mem[..] == Store(old(mem[..]), w.list[w.self].relas[j].slot, Resolved(w, j))
    ensures missing <==> Missing(w, j)
  {
    var m := w.list[w.self];
    var r := m.relas[j];
    missing := false;
    if (r.kind == Abs64 || r.kind == GlobDat || r.kind == JumpSlot) && !m.symbols[r.sym].defined {
      var addr := ResolveSymbol(w.list, w.self, w.shims, m.symbols[r.sym].name);
      if addr != 0 {
        mem[r.slot] := AddWrap(addr, r.addend);
      } else if m.symbols[r.sym].bind == Weak {
        mem[r.slot] := 0;
      } else {
        missing := true;
        if w.taint {
          mem[r.slot] := 8 * r.slot;
        }
      }
    }
  }

  /** An import that is reported: neither found nor weak. */
  predicate Missing(w: World, j: nat)
    requires w.self < |w.list| && j < |w.list[w.self].relas| && InBounds(w.list[w.self], 0x2000_0000_0000_0000)
  {
    var m := w.list[w.self];
    var r := m.relas[j];
    && Import(m, r) && m.symbols[r.sym].bind != Weak
    && Lookup(w.list, w.self, w.shims, m.symbols[r.sym].name) == 0
  }

  /** How many of the first `n` relocations are reported. */
  function MissingCount(w: World, n: nat): nat
    requires w.self < |w.list| && n <= |w.list[w.self].relas| && InBounds(w.list[w.self], 0x2000_0000_0000_0000)
    decreases n, w
  {
    if n == 0 then 0 else MissingCount(w, n - 1) + (if Missing(w, n - 1) then 1 else 0)
  }

  /** `so_resolve`, with the number of imports it reports. */
  method Resolve(mem: array<u64>, w: World) returns (missing: nat)
    requires Valid(w, mem.Length) && InBounds(w.list[w.self], 0x2000_0000_0000_0000)
    modifies mem
    ensures mem[..] == Linked(w, old(mem[..]), |w.list[w.self].relas|)
    ensures missing == MissingCount(w, |w.list[w.self].relas|)
  {
    missing := 0;
    for j := 0 to |w.list[w.self].relas|
      invariant mem[..] == Linked(w, old(mem[..]), j)
      invariant missing == MissingCount(w, j)
    {
      var one := ResolveOne(mem, w, j);
      if one {
        missing := missing + 1;
      }
    }
  }

  /** `so_relocate`: the tables, then the packed relocations; `relr` is empty when the file has none. */
  method Relocate(mem: array<u64>, m: Module, relr: seq<u64>) returns (ok: bool)
    requires InBounds(m, mem.Length) && AllAligned(relr) && WellFormed(Decoded(relr), mem.Length)
    modifies mem
    ensures ok <==> forall j :: 0 <= j < |m.relas| ==> m.relas[j].kind != Unknown
    ensures ok ==> Rebased(Relocated(m, old(mem[..]), |m.relas|), mem[..], m.base, Decoded(relr))
  {
    ok := RelocateRelas(mem, m);
    if ok {
      ProcessRelr(mem, m.base, relr);
    }
  }

  // ---- the final values ----

  /** No two relocations speak about the same word, and no packed one about the word of a table. */
  predicate DisjointTargets(m: Module, t: seq<Entry>) {
    && (forall i, j :: 0 <= i < j < |m.relas| ==> m.relas[i].slot != m.relas[j].slot)
    && forall j :: 0 <= j < |m.relas| ==> !Encoded(t, m.relas[j].slot)
  }

  lemma {:induction false} RelocatedAt(m: Module, mem: seq<u64>, n: nat, word: nat)
    requires InBounds(m, |mem|) && n <= |m.relas| && word < |mem|
    requires forall i, j :: 0 <= i < j < |m.relas| ==> m.relas[i].slot != m.relas[j].slot
    ensures (forall j :: 0 <= j < n ==> m.relas[j].slot != word) ==> Relocated(m, mem, n)[word] == mem[word]
    ensures forall j :: 0 <= j < n && m.relas[j].slot == word ==>
      Relocated(m, mem, n)[word] == (var v := LinkTime(m, m.relas[j]); if v.Some? then v.value else mem[word])
  {
    if n > 0 {
      RelocatedAt(m, mem, n - 1, word);
    }
  }

  lemma {:induction false} LinkedAt(w: World, mem: seq<u64>, n: nat, word: nat)
    requires Valid(w, |mem|) && InBounds(w.list[w.self], 0x2000_0000_0000_0000)
    requires n <= |w.list[w.self].relas| && word < |mem|
    requires var m := w.list[w.self]; forall i, j :: 0 <= i < j < |m.relas| ==> m.relas[i].slot != m.relas[j].slot
    ensures (forall j :: 0 <= j < n ==> w.list[w.self].relas[j].slot != word) ==> Linked(w, mem, n)[word] == mem[word]
    ensures forall j :: 0 <= j < n && w.list[w.self].relas[j].slot == word ==>
      Linked(w, mem, n)[word] == if Resolved(w, j).Some? then Resolved(w, j).value else mem[word]
  {
    hide Valid;
    if n > 0 {
      LinkedAt(w, mem, n - 1, word);
    }
  }

  /** The zone after both phases, given the one after the tables and the packed relocations. */
  ghost predicate FullyLinked(w: World, file: seq<u64>, mid: seq<u64>, end: seq<u64>, t: seq<Entry>)
    requires Valid(w, |file|)
  {
    var m := w.list[w.self];
    && Rebased(Relocated(m, file, |m.relas|), mid, m.base, t)
    && end == Linked(w, mid, |m.relas|)
  }

  /**
   * What an import's slot holds in the end: the address its name has, plus the addend; 0 when it is missing and
   * weak; otherwise the poison or what relocation left there. A slot that is no import keeps its link-time value.
   */
  lemma {:induction false} FinalSlot(w: World, file: seq<u64>, mid: seq<u64>, end: seq<u64>, t: seq<Entry>, j: nat)
    requires Valid(w, |file|) && FullyLinked(w, file, mid, end, t) && DisjointTargets(w.list[w.self], t)
    requires j < |w.list[w.self].relas|
    ensures
      var m := w.list[w.self];
      var r := m.relas[j];
      var addr := Lookup(w.list, w.self, w.shims, m.symbols[r.sym].name);
      var before := if LinkTime(m, r).Some? then LinkTime(m, r).value else file[r.slot];
      && |end| == |file|
      && end[r.slot] ==
         if !Import(m, r) then before
         else if addr != 0 then AddWrap(addr, r.addend)
         else if m.symbols[r.sym].bind == Weak then 0
         else if w.taint then 8 * r.slot
         else before
  {
    var m := w.list[w.self];
    Wider(m, |file|);
    RelocatedAt(m, file, |m.relas|, m.relas[j].slot);
    LinkedAt(w, mid, |m.relas|, m.relas[j].slot);
  }

  /** Every other word: moved by the load base if it is in the packed table, else as the file has it. */
  lemma {:induction false} FinalOther(w: World, file: seq<u64>, mid: seq<u64>, end: seq<u64>, t: seq<Entry>, word: nat)
    requires Valid(w, |file|) && FullyLinked(w, file, mid, end, t) && DisjointTargets(w.list[w.self], t)
    requires word < |file| && forall j :: 0 <= j < |w.list[w.self].relas| ==> w.list[w.self].relas[j].slot != word
    ensures
      |end| == |file| && end[word] == if Encoded(t, word) then AddWrap(w.list[w.self].base, file[word]) else file[word]
  {
    var m := w.list[w.self];
    Wider(m, |file|);
    RelocatedAt(m, file, |m.relas|, word);
    LinkedAt(w, mid, |m.relas|, word);
  }

  // ---- another load base ----

  /** The module loaded `d` bytes further up. */
  function Moved(m: Module, d: u64): Module { m.(base := AddWrap(m.base, d)) }

  /** The relocations whose value is an address in the module itself. */
  predicate Own(m: Module, r: Rela)
    requires r.sym < |m.symbols|
  {
    r.kind == Relative || (m.symbols[r.sym].defined && r.kind in {Abs64, GlobDat, JumpSlot})
  }

  lemma {:induction false} SumIs(a: u64, b: u64)
    ensures AddWrap(a, b) == if a + b < U64_SIZE then a + b else a + b - U64_SIZE
  {
  }

  lemma {:induction false} SumMoved(a: u64, b: u64, d: u64)
    ensures AddWrap(AddWrap(a, d), b) == AddWrap(AddWrap(a, b), d)
  {
    hide AddWrap;
    SumIs(a, d);
    SumIs(AddWrap(a, d), b);
    SumIs(a, b);
    SumIs(AddWrap(a, b), d);
  }

  lemma {:induction false} SumFromZero(a: u64)
    ensures AddWrap(0, a) == a
  {
  }

  /** Its own addresses count from the load base and move with it; nothing else that relocation stores does. */
  lemma {:induction false} LinkTimeMoves(m: Module, r: Rela, d: u64)
    requires r.sym < |m.symbols|
    ensures
      LinkTime(Moved(m, d), r) ==
        if Own(m, r) && LinkTime(m, r).Some? then Some(AddWrap(LinkTime(m, r).value, d)) else LinkTime(m, r)
    ensures m.base == 0 && Own(m, r) ==>
      LinkTime(m, r) == Some(if r.kind == Relative then r.addend else AddWrap(m.symbols[r.sym].value, r.addend))
  {
    hide AddWrap;
    var v := m.symbols[r.sym].value;
    SumMoved(m.base, v, d);
    SumMoved(AddWrap(m.base, v), r.addend, d);
    SumMoved(m.base, r.addend, d);
    SumFromZero(v);
    SumFromZero(r.addend);
  }

  /** A module's own base has no part in the addresses of its imports. */
  lemma {:induction false} ImportsElsewhere(list: seq<Module>, self: nat, name: bytes, j: nat, d: u64)
    requires self < |list| && j <= |list|
    ensures OtherFrom(list[self := Moved(list[self], d)], self, name, j) == OtherFrom(list, self, name, j)
    decreases |list| - j
  {
    if j < |list| {
      ImportsElsewhere(list, self, name, j + 1, d);
    }
  }

  function WorldMoved(w: World, d: u64): World
    requires w.self < |w.list|
  {
    w.(list := w.list[w.self := Moved(w.list[w.self], d)])
  }

  /**
   * Loading the module `d` bytes further up moves what its own addresses end with in their slots by `d`, and leaves
   * every import's slot as it is.
   */
  lemma {:induction false} SlotMoves(w: World, d: u64, file: seq<u64>, mid: seq<u64>, end: seq<u64>,
                                     mid': seq<u64>, end': seq<u64>, t: seq<Entry>, j: nat)
    requires Valid(w, |file|) && Valid(WorldMoved(w, d), |file|)
    requires FullyLinked(w, file, mid, end, t) && FullyLinked(WorldMoved(w, d), file, mid', end', t)
    requires DisjointTargets(w.list[w.self], t) && j < |w.list[w.self].relas|
    ensures
      var m := w.list[w.self];
      var r := m.relas[j];
      && |end| == |end'| == |file|
      && end'[r.slot] == if Own(m, r) then AddWrap(end[r.slot], d) else end[r.slot]
  {
    hide FullyLinked, LinkTime, Lookup, AddWrap, DisjointTargets;
    var m := w.list[w.self];
    var r := m.relas[j];
    SameTargets(m, d, t);
    FinalSlot(w, file, mid, end, t, j);
    FinalSlot(WorldMoved(w, d), file, mid', end', t, j);
    LinkTimeMoves(m, r, d);
    SameLookup(w, d, m.symbols[r.sym].name);
    if Own(m, r) {
      StoresOwn(m, r);
    }
  }

  lemma {:induction false} StoresOwn(m: Module, r: Rela)
    requires r.sym < |m.symbols| && Own(m, r)
    ensures LinkTime(m, r).Some?
  {
  }

  lemma {:induction false} SameTargets(m: Module, d: u64, t: seq<Entry>)
    requires DisjointTargets(m, t)
    ensures DisjointTargets(Moved(m, d), t)
  {
  }

  lemma {:induction false} SameLookup(w: World, d: u64, name: bytes)
    requires w.self < |w.list|
    ensures Lookup(WorldMoved(w, d).list, w.self, w.shims, name) == Lookup(w.list, w.self, w.shims, name)
  {
    ImportsElsewhere(w.list, w.self, name, 0, d);
  }
}
