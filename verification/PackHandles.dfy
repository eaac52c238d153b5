/** Descriptors over a mounted pack: a table of cached cursors that must be indistinguishable from plain ones. */
module PackHandles {
  import opened Bytes
  import opened Slices
  import opened CStrings
  import opened PackFormat

  const PACK_HANDLES := 512
  const PACK_CACHE_SIZE := 0x1_0000
  const PACK_DIRECTORY_ENTRY: u32 := 0xFFFF_FFFF

  datatype Errno = EBADF | EISDIR | EINVAL | EMFILE | NoMemory | NotOpened

  datatype Whence = SeekSet | SeekCur | SeekEnd | SeekOther

  /** One slot of `g_handles`; `cache` is the 64 KiB buffer once it has been allocated. */
  datatype Handle = Handle(used: bool, fd: int, entry: u32, directoryIno: u64, position: nat,
                           cacheOffset: nat, cacheSize: nat, cache: Option<bytes>)

  /** What a descriptor is to its user: something open, and a position. */
  datatype Cursor = Cursor(entry: u32, directoryIno: u64, position: nat)

  function CursorOf(h: Handle): Cursor { Cursor(h.entry, h.directoryIno, h.position) }

  /** What a read of `count` bytes at `position` of a file means. */
  function Window(content: bytes, position: nat, count: nat): bytes {
    if position >= |content| then [] else content[position..Min(position + count, |content|)]
  }

  /** A window is the file from a position on, cut at the count and at the end; two in a row are one. */
  lemma {:induction false} WindowIs(content: bytes, position: nat, m: nat, n: nat)
    ensures |Window(content, position, n)| == if position >= |content| then 0 else Min(n, |content| - position)
    ensures forall i :: 0 <= i < |Window(content, position, n)| ==>
      Window(content, position, n)[i] == content[position + i]
    ensures
      var first := Window(content, position, m);
      first + Window(content, position + |first|, n) == Window(content, position, m + n)
  {
    var first := Window(content, position, m);
    if position < |content| && |first| == m && position + m < |content| {
      Adjacent(content, position, position + m, Min(position + m + n, |content|));
    }
  }

  predicate Distinct(hs: seq<Handle>) {
    forall i, j :: 0 <= i < j < |hs| && hs[i].used && hs[j].used ==> hs[i].fd != hs[j].fd
  }

  /** The table as its users see it: open descriptors to cursors. */
  ghost function View(hs: seq<Handle>): map<int, Cursor> { ViewUpTo(hs, |hs|) }

  ghost function ViewUpTo(hs: seq<Handle>, n: nat): map<int, Cursor>
    requires n <= |hs|
  {
    if n == 0 then map[]
    else if hs[n - 1].used then ViewUpTo(hs, n - 1)[hs[n - 1].fd := CursorOf(hs[n - 1])]
    else ViewUpTo(hs, n - 1)
  }

  predicate At(hs: seq<Handle>, n: nat, i: nat, fd: int)
    requires n <= |hs|
  {
    i < n && hs[i].used && hs[i].fd == fd
  }

  /** With distinct descriptors the view holds exactly the used slots. */
  lemma {:induction false} ViewHolds(hs: seq<Handle>, n: nat)
    requires Distinct(hs) && n <= |hs|
    ensures forall fd :: fd in ViewUpTo(hs, n) <==> exists i: nat :: At(hs, n, i, fd)
    ensures forall i: nat :: i < n && hs[i].used ==>
      hs[i].fd in ViewUpTo(hs, n) && ViewUpTo(hs, n)[hs[i].fd] == CursorOf(hs[i])
  {
    if n > 0 {
      ViewHolds(hs, n - 1);
      var v, last := ViewUpTo(hs, n - 1), n - 1;
      forall i: nat | i < n && hs[i].used
        ensures hs[i].fd in ViewUpTo(hs, n) && ViewUpTo(hs, n)[hs[i].fd] == CursorOf(hs[i])
      {
        if i < n - 1 {
          assert hs[i].fd in v && v[hs[i].fd] == CursorOf(hs[i]);
        }
      }
      forall fd ensures fd in ViewUpTo(hs, n) <==> exists i: nat :: At(hs, n, i, fd) {
        if i: nat :| At(hs, last, i, fd) {
          assert At(hs, n, i, fd);
        }
        if hs[n - 1].used && hs[n - 1].fd == fd {
          assert At(hs, n, n - 1, fd);
        }
        if i: nat :| At(hs, n, i, fd) && i < last {
          assert At(hs, last, i, fd);
        }
      }
    }
  }

  /** A view is determined by what each slot says. */
  lemma {:induction false} ViewIs(hs: seq<Handle>, v: map<int, Cursor>)
    requires Distinct(hs)
    requires forall i: nat :: i < |hs| && hs[i].used ==> hs[i].fd in v && v[hs[i].fd] == CursorOf(hs[i])
    requires forall fd :: fd in v ==> exists i: nat :: At(hs, |hs|, i, fd)
    ensures View(hs) == v
  {
    ViewHolds(hs, |hs|);
    forall fd ensures fd in View(hs) <==> fd in v {
      if i: nat :| At(hs, |hs|, i, fd) {
        assert hs[i].fd in v;
      }
    }
    forall fd | fd in v ensures View(hs)[fd] == v[fd] {
      var i: nat :| At(hs, |hs|, i, fd);
    }
  }

  lemma {:induction false} ViewAt(hs: seq<Handle>, i: nat)
    requires Distinct(hs) && i < |hs| && hs[i].used
    ensures hs[i].fd in View(hs) && View(hs)[hs[i].fd] == CursorOf(hs[i])
  {
    ViewHolds(hs, |hs|);
  }

  lemma {:induction false} ViewSlot(hs: seq<Handle>, fd: int) returns (i: nat)
    requires Distinct(hs) && fd in View(hs)
    ensures i < |hs| && hs[i].used && hs[i].fd == fd && View(hs)[fd] == CursorOf(hs[i])
  {
    ViewHolds(hs, |hs|);
    i :| At(hs, |hs|, i, fd);
  }

  /** Writing one slot, used before or not, with a descriptor that no other slot has. */
  lemma {:induction false} ViewWrite(hs: seq<Handle>, i: nat, h: Handle)
    requires Distinct(hs) && i < |hs| && h.used && (if hs[i].used then h.fd == hs[i].fd else h.fd !in View(hs))
    ensures Distinct(hs[i := h]) && View(hs[i := h]) == View(hs)[h.fd := CursorOf(h)]
  {
    var after := hs[i := h];
    var v := View(hs)[h.fd := CursorOf(h)];
    forall k: nat | k < |hs| && hs[k].used && k != i
      ensures hs[k].fd != h.fd && hs[k].fd in v && v[hs[k].fd] == CursorOf(hs[k])
    {
      ViewAt(hs, k);
    }
    forall fd | fd in v ensures exists k: nat :: At(after, |after|, k, fd) {
      if fd == h.fd {
        assert At(after, |after|, i, fd);
      } else {
        var k := ViewSlot(hs, fd);
        assert At(after, |after|, k, fd);
      }
    }
    ViewIs(after, v);
  }

  lemma {:induction false} ViewRemove(hs: seq<Handle>, i: nat, h: Handle)
    requires Distinct(hs) && i < |hs| && hs[i].used && !h.used
    ensures Distinct(hs[i := h]) && View(hs[i := h]) == View(hs) - {hs[i].fd}
  {
    var after := hs[i := h];
    var v := View(hs) - {hs[i].fd};
    forall k: nat | k < |hs| && hs[k].used && k != i ensures hs[k].fd in v && v[hs[k].fd] == CursorOf(hs[k]) {
      ViewAt(hs, k);
    }
    forall fd | fd in v ensures exists k: nat :: At(after, |after|, k, fd) {
      var k := ViewSlot(hs, fd);
      assert At(after, |after|, k, fd);
    }
    ViewIs(after, v);
  }

  class PackTable {
    const m: Mount
    const packFd: int
    var handles: seq<Handle>
    ghost var openFds: set<int>  // every descriptor the process has open

    predicate EntryValid(entry: u32) {
      entry == PACK_DIRECTORY_ENTRY || entry < |m.entries|
    }

    /** The bytes a file entry stands for. */
    function ContentOf(entry: u32): (c: bytes)
      requires m.Valid() && entry < |m.entries|
      ensures |c| == m.entries[entry].size
    {
      assert m.EntryOk(entry);
      m.Content(entry)
    }

    /** A cache always equals the matching slice of its file. */
    predicate CacheOk(h: Handle)
      requires m.Valid()
    {
      h.cache.Some? ==>
        && h.cacheSize <= PACK_CACHE_SIZE == |h.cache.value|
        && (h.cacheSize > 0 ==>
              && h.entry < |m.entries|
              && h.cacheOffset + h.cacheSize <= |ContentOf(h.entry)|
              && h.cache.value[..h.cacheSize] == ContentOf(h.entry)[h.cacheOffset..h.cacheOffset + h.cacheSize])
    }

    ghost predicate Valid()
      reads this
    {
      && m.Valid()
      && |handles| == PACK_HANDLES
      && Distinct(handles)
      && packFd in openFds
      && forall i :: 0 <= i < |handles| ==>
           if handles[i].used then
             && 0 <= handles[i].fd && handles[i].fd in openFds && handles[i].fd != packFd
             && EntryValid(handles[i].entry) && CacheOk(handles[i])
           else
             handles[i].cache.None?
    }

    constructor (m: Mount, packFd: int, ghost openFds: set<int>)
      requires m.Valid() && packFd in openFds
      ensures Valid() && this.m == m && this.packFd == packFd && this.openFds == openFds
      ensures View(handles) == map[]
    {
      this.m := m;
      this.packFd := packFd;
      this.openFds := openFds;
      handles := seq(PACK_HANDLES, _ => Handle(false, -1, 0, 0, 0, 0, 0, None));
      new;
      ViewIs(handles, map[]);
    }

    /** `get_handle`. */
    method GetHandle(fd: int) returns (slot: Option<nat>)
      requires Valid()
      ensures slot.Some? <==> fd in View(handles)
      ensures slot.Some? ==>
        slot.value < |handles| && handles[slot.value].used && handles[slot.value].fd == fd
        && View(handles)[fd] == CursorOf(handles[slot.value])
    {
      GetHandleView(fd);
      if fd < 0 {
        return None;
      }
      for i := 0 to PACK_HANDLES
        invariant forall j :: 0 <= j < i ==> !(handles[j].used && handles[j].fd == fd)
      {
        if handles[i].used && handles[i].fd == fd {
          ViewAt(handles, i);
          return Some(i);
        }
      }
      return None;
    }

    lemma {:induction false} GetHandleView(fd: int)
      requires Valid()
      ensures fd in View(handles) <==> exists i :: 0 <= i < |handles| && handles[i].used && handles[i].fd == fd
    {
      ViewHolds(handles, |handles|);
      if i :| 0 <= i < |handles| && handles[i].used && handles[i].fd == fd {
        assert At(handles, |handles|, i, fd);
      }
      if fd in View(handles) {
        var i := ViewSlot(handles, fd);
      }
    }

    /** `add_handle`: the first free slot, or close the descriptor again. */
    method AddHandle(fd: int, entry: u32, position: nat, directoryIno: u64) returns (r: Result<int, Errno>)
      requires Valid() && 0 <= fd && fd in openFds && fd != packFd && fd !in View(handles) && EntryValid(entry)
      modifies this
      ensures Valid()
      ensures r == (if |old(View(handles))| < PACK_HANDLES then Success(fd) else Failure(EMFILE))
      ensures r.Success? ==>
        View(handles) == old(View(handles))[fd := Cursor(entry, directoryIno, position)] && openFds == old(openFds)
      ensures r.Failure? ==> View(handles) == old(View(handles)) && openFds == old(openFds) - {fd}
    {
      for i := 0 to PACK_HANDLES
        invariant forall j :: 0 <= j < i ==> handles[j].used
        invariant handles == old(handles) && openFds == old(openFds)
      {
        if !handles[i].used {
          var h := handles[i].(used := true, fd := fd, entry := entry, directoryIno := directoryIno,
                               position := position, cacheOffset := 0, cacheSize := 0);
          FreeSlotCount(handles, i);
          ViewWrite(handles, i, h);
          handles := handles[i := h];
          return Success(fd);
        }
      }
      FullCount(handles);
      GetHandleView(fd);
      openFds := openFds - {fd};
      return Failure(EMFILE);
    }

    /** `asset_pack_open_path`, once the path has been resolved to an entry; `newFd` is what `open` returned. */
    method Open(entry: u32, directoryIno: u64, newFd: int) returns (r: Result<int, Errno>)
      requires Valid() && EntryValid(entry) && (newFd >= 0 ==> newFd !in openFds)
      modifies this
      ensures Valid()
      ensures newFd < 0 ==> r == Failure(NotOpened)
      ensures newFd >= 0 ==> r == if |old(View(handles))| < PACK_HANDLES then Success(newFd) else Failure(EMFILE)
      ensures r.Success? ==>
        View(handles) == old(View(handles))[newFd := Cursor(entry, directoryIno, 0)]
          && openFds == old(openFds) + {newFd}
      ensures r.Failure? ==> View(handles) == old(View(handles)) && openFds == old(openFds)
    {
      if newFd < 0 {
        return Failure(NotOpened);
      }
      FreshDescriptor(newFd);
      openFds := openFds + {newFd};
      r := AddHandle(newFd, entry, 0, directoryIno);
    }

    lemma {:induction false} FreshDescriptor(fd: int)
      requires Valid() && fd !in openFds
      ensures fd !in View(handles) && fd != packFd
    {
      GetHandleView(fd);
    }

    /** `asset_pack_dup_fd`. */
    method Dup(fd: int, newFd: int) returns (r: Result<int, Errno>)
      requires Valid() && (newFd >= 0 ==> newFd !in openFds)
      modifies this
      ensures Valid()
      ensures fd !in old(View(handles)) ==> r == Failure(EBADF)
      ensures fd in old(View(handles)) && newFd < 0 ==> r == Failure(NotOpened)
      ensures fd in old(View(handles)) && newFd >= 0 ==>
        r == if |old(View(handles))| < PACK_HANDLES then Success(newFd) else Failure(EMFILE)
      ensures r.Success? ==>
        View(handles) == old(View(handles))[newFd := old(View(handles))[fd]] && openFds == old(openFds) + {newFd}
      ensures r.Failure? ==> View(handles) == old(View(handles)) && openFds == old(openFds)
    {
      var slot := GetHandle(fd);
      if slot.None? {
        return Failure(EBADF);
      }
      var source := handles[slot.value];
      if newFd < 0 {
        return Failure(NotOpened);
      }
      FreshDescriptor(newFd);
      openFds := openFds + {newFd};
      r := AddHandle(newFd, source.entry, source.position, source.directoryIno);
    }

    /** `asset_pack_close_fd`. */
    method Close(fd: int) returns (r: Result<(), Errno>)
      requires Valid()
      modifies this
      ensures Valid()
      ensures r == if fd in old(View(handles)) then Success(()) else Failure(EBADF)
      ensures View(handles) == old(View(handles)) - {fd}
      ensures openFds == if r.Success? then old(openFds) - {fd} else old(openFds)
    {
      var slot := GetHandle(fd);
      if slot.None? {
        return Failure(EBADF);
      }
      var h := handles[slot.value].(used := false, cache := None, cacheSize := 0, fd := -1);
      ViewRemove(handles, slot.value, h);
      handles := handles[slot.value := h];
      openFds := openFds - {fd};
      return Success(());
    }

    /**
     * `asset_pack_dup2_fd`: `newFd` is what `open` returns once a live target has been closed, and
     * `dupOk` whether the system's own `dup2` succeeds.
     */
    method Dup2(fd: int, target: int, newFd: int, dupOk: bool) returns (r: Result<int, Errno>)
      requires Valid()
      requires newFd >= 0 ==> newFd !in (if target in View(handles) && fd != target && target != packFd
                                            then openFds - {target} else openFds)
      requires dupOk ==> target >= 0
      modifies this
      ensures Valid()
      ensures fd == target || fd !in old(View(handles)) ==>
        && r == (if fd in old(View(handles)) then Success(fd) else Failure(EBADF))
        && View(handles) == old(View(handles)) && openFds == old(openFds)
      ensures r.Success? && fd != target ==>
        var result := if target == packFd then newFd else target;
        r.value == result && View(handles) == old(View(handles))[result := old(View(handles))[fd]]
      ensures r.Failure? && fd != target && fd in old(View(handles)) ==>
        View(handles) == if target == packFd then old(View(handles)) else old(View(handles)) - {target}
      ensures fd in old(View(handles)) && newFd >= 0 && dupOk && |old(View(handles))| < PACK_HANDLES ==> r.Success?
    {
      if fd == target {
        var live := GetHandle(fd);
        return if live.Some? then Success(fd) else Failure(EBADF);
      }
      if target == packFd {
        r := Dup(fd, newFd);
        return;
      }
      var slot := GetHandle(fd);
      if slot.None? {
        return Failure(EBADF);
      }
      r := Replace(slot.value, target, newFd, dupOk);
    }

    lemma {:induction false} SlotEntryValid(slot: nat)
      requires Valid() && slot < |handles| && handles[slot].used
      ensures EntryValid(handles[slot].entry)
    {
    }

    /** `dup2` proper: close the target if it is ours, then put the source's cursor on its number. */
    method Replace(slot: nat, target: int, newFd: int, dupOk: bool) returns (r: Result<int, Errno>)
      requires Valid() && slot < |handles| && handles[slot].used && target != packFd
      requires newFd >= 0 ==> newFd !in (if target in View(handles) then openFds - {target} else openFds)
      requires dupOk ==> target >= 0
      modifies this
      ensures Valid()
      ensures r.Success? ==>
        r.value == target && View(handles) == old(View(handles))[target := old(CursorOf(handles[slot]))]
      ensures r.Failure? ==> r.error != EBADF && View(handles) == old(View(handles)) - {target}
      ensures newFd >= 0 && dupOk && |old(View(handles))| < PACK_HANDLES ==> r.Success?
    {
      hide Valid, View, EntryValid;
      SlotEntryValid(slot);
      var c := CursorOf(handles[slot]);
      ghost var v := View(handles);
      CloseIfLive(target);
      r := PlaceAt(target, c, newFd, dupOk);
      PutBack(v, target, c);
    }

    /** Closes the target of a `dup2` when it is one of ours. */
    method CloseIfLive(target: int)
      requires Valid()
      modifies this
      ensures Valid()
      ensures View(handles) == old(View(handles)) - {target} && |View(handles)| <= |old(View(handles))|
      ensures openFds == if target in old(View(handles)) then old(openFds) - {target} else old(openFds)
    {
      var live := GetHandle(target);
      if live.Some? {
        var closed := Close(target);
        RemoveCount(old(View(handles)), target);
      }
      assert old(View(handles)) - {target} == View(handles);
    }

    /** The second half of `asset_pack_dup2_fd`: put a cursor on a descriptor number that no handle uses. */
    method PlaceAt(target: int, c: Cursor, newFd: int, dupOk: bool) returns (r: Result<int, Errno>)
      requires Valid() && EntryValid(c.entry) && target !in View(handles) && target != packFd
      requires newFd >= 0 ==> newFd !in openFds
      requires dupOk ==> target >= 0
      modifies this
      ensures Valid()
      ensures r.Success? ==> r.value == target && View(handles) == old(View(handles))[target := c]
      ensures r.Failure? ==> r.error != EBADF && View(handles) == old(View(handles))
      ensures newFd >= 0 && dupOk && |old(View(handles))| < PACK_HANDLES ==> r.Success?
    {
      if newFd < 0 {
        return Failure(NotOpened);
      }
      FreshDescriptor(newFd);
      if newFd != target && !dupOk {
        return Failure(NotOpened);
      }
      openFds := openFds + {target};
      r := AddHandle(target, c.entry, c.position, c.directoryIno);
    }

    /** `read_handle_at`: read through the descriptor, clipped to the file. */
    method ReadHandleAt(h: Handle, count: nat, offset: nat) returns (r: Result<bytes, Errno>)
      requires m.Valid() && EntryValid(h.entry)
      ensures r == if h.entry == PACK_DIRECTORY_ENTRY then Failure(EISDIR)
        else Success(Window(ContentOf(h.entry), offset, count))
    {
      if h.entry == PACK_DIRECTORY_ENTRY {
        return Failure(EISDIR);
      }
      var e := m.entries[h.entry];
      assert m.EntryOk(h.entry);
      if offset >= e.size {
        return Success([]);
      }
      var available := e.size - offset;
      var clipped := if count > available then available else count;
      var got := ReadAt(m.data, clipped, e.offset + offset);
      OfSlice(m.data, e.offset, e.size, offset, offset + clipped);
      return Success(got.value);
    }

    /** The refill of `asset_pack_read_fd`: the cache takes over the bytes from the position on. */
    method Refill(h: Handle) returns (h': Handle)
      requires m.Valid() && h.entry < |m.entries| && h.cache.Some? && |h.cache.value| == PACK_CACHE_SIZE
      requires h.position < |ContentOf(h.entry)|
      ensures CacheOk(h') && h'.cache.Some?
        && h' == h.(cacheOffset := h.position, cacheSize := h'.cacheSize, cache := h'.cache)
      ensures h'.cacheSize == Min(PACK_CACHE_SIZE, |ContentOf(h.entry)| - h.position) > 0
    {
      var got := ReadHandleAt(h, PACK_CACHE_SIZE, h.position);
      var data := got.value;
      var buffer := data + h.cache.value[|data|..];
      assert buffer[..|data|] == data;
      h' := h.(cacheOffset := h.position, cacheSize := |data|, cache := Some(buffer));
    }

    /** The top of the copy loop: make the cache cover the position, allocating or refilling it as needed. */
    method Load(h: Handle, allocOk: bool) returns (h': Handle, r: Result<bool, Errno>)
      requires m.Valid() && h.entry < |m.entries| && CacheOk(h)
      ensures CacheOk(h') && h'.used == h.used && h'.fd == h.fd && CursorOf(h') == CursorOf(h)
      ensures r.Failure? <==> h.cache.None? && !allocOk
      ensures r.Failure? ==> r.error == NoMemory
      ensures r.Success? ==> h'.cache.Some?
      ensures r.Success? && r.value ==> h'.cacheOffset <= h'.position < h'.cacheOffset + h'.cacheSize
      ensures r == Success(false) ==> h.position >= |ContentOf(h.entry)|
    {
      h' := h;
      if h'.cache.None? || h'.position < h'.cacheOffset || h'.position >= h'.cacheOffset + h'.cacheSize {
        if h'.cache.None? {
          if !allocOk {
            return h', Failure(NoMemory);
          }
          h' := h'.(cache := Some(Zeros(PACK_CACHE_SIZE)));
        }
        h' := h'.(cacheOffset := h'.position, cacheSize := 0);
        if h'.position >= |ContentOf(h.entry)| {
          return h', Success(false);
        }
        h' := Refill(h');
      }
      return h', Success(true);
    }

    /** The copy loop of small reads, through the cache. */
    method ReadCached(h: Handle, count: nat, allocOk: bool) returns (h': Handle, r: Result<bytes, Errno>)
      requires m.Valid() && h.entry < |m.entries| && CacheOk(h) && h.position < |ContentOf(h.entry)|
      ensures CacheOk(h') && h'.used == h.used && h'.fd == h.fd
      ensures r.Failure? <==> count > 0 && h.cache.None? && !allocOk
      ensures r.Failure? ==> r.error == NoMemory && CursorOf(h') == CursorOf(h)
      ensures r.Success? ==>
        && r.value == Window(ContentOf(h.entry), h.position, count)
        && CursorOf(h') == CursorOf(h).(position := h.position + |r.value|)
    {
      hide CacheOk, ContentOf;
      h' := h;
      ghost var content := ContentOf(h.entry);
      var data: bytes := [];
      while |data| < count
        invariant CacheOk(h') && h'.used == h.used && h'.fd == h.fd
        invariant CursorOf(h') == CursorOf(h).(position := h.position + |data|)
        invariant |data| <= count && h'.position <= |content| && data == content[h.position..h'.position]
        invariant if data == [] then h'.cache == h.cache else h'.cache.Some? && (h.cache.Some? || allocOk)
        decreases count - |data|
      {
        var more, piece;
        h', more, piece := Piece(h', count - |data|, allocOk);
        if more.Failure? {
          return h', Failure(more.error);
        }
        if !more.value {
          break;
        }
        Adjacent(content, h.position, h'.position - |piece|, h'.position);
        data := data + piece;
      }
      r := Success(data);
    }

    /** One turn of the cached loop: what the cache, filled if need be, has at the position. */
    method Piece(h: Handle, wanted: nat, allocOk: bool) returns (h': Handle, r: Result<bool, Errno>, piece: bytes)
      requires m.Valid() && h.entry < |m.entries| && CacheOk(h) && wanted > 0
      ensures CacheOk(h') && h'.used == h.used && h'.fd == h.fd
      ensures CursorOf(h') == CursorOf(h).(position := h.position + |piece|)
      ensures r.Failure? <==> h.cache.None? && !allocOk
      ensures r.Failure? ==> r.error == NoMemory
      ensures r.Success? ==> h'.cache.Some?
      ensures r != Success(true) ==> piece == []
      ensures r.Success? && r.value ==>
        0 < |piece| <= wanted && h'.position <= |ContentOf(h.entry)|
          && piece == ContentOf(h.entry)[h.position..h'.position]
      ensures r == Success(false) ==> h.position >= |ContentOf(h.entry)|
    {
      hide ContentOf;
      h', r := Load(h, allocOk);
      piece := [];
      if r == Success(true) {
        var inside := h'.position - h'.cacheOffset;
        var available := h'.cacheSize - inside;
        var take := if wanted < available then wanted else available;
        CachedPiece(h', inside, take);
        piece := h'.cache.value[inside..inside + take];
        h' := h'.(position := h'.position + take);
      }
    }

    lemma {:induction false} CachedPiece(h: Handle, inside: nat, take: nat)
      requires m.Valid() && CacheOk(h) && h.cache.Some? && 0 < h.cacheSize && inside + take <= h.cacheSize
      ensures h.cache.value[inside..inside + take]
        == ContentOf(h.entry)[h.cacheOffset + inside..h.cacheOffset + inside + take]
    {
      OfPrefix(h.cache.value[..h.cacheSize], h.cache.value, inside, inside + take);
      OfSlice(ContentOf(h.entry), h.cacheOffset, h.cacheSize, inside, inside + take);
    }

    /** The plain cursor's answer to a read. */
    ghost function PlainRead(v: map<int, Cursor>, fd: int, count: nat): (r: Result<bytes, Errno>)
      requires m.Valid() && (fd in v ==> EntryValid(v[fd].entry))
    {
      if fd !in v then Failure(EBADF)
      else if v[fd].entry == PACK_DIRECTORY_ENTRY then Failure(EISDIR)
      else Success(Window(ContentOf(v[fd].entry), v[fd].position, count))
    }

    /** Writes a live handle back into its slot. */
    method Store(slot: nat, h: Handle)
      requires Valid() && slot < |handles| && handles[slot].used && h.used && h.fd == handles[slot].fd
      requires EntryValid(h.entry) && CacheOk(h)
      modifies this
      ensures Valid() && openFds == old(openFds)
      ensures View(handles) == old(View(handles))[h.fd := CursorOf(h)]
    {
      ViewWrite(handles, slot, h);
      handles := handles[slot := h];
    }

    /** The branches of `asset_pack_read_fd` on a live file handle: past the end, straight through, or cached. */
    method ReadFile(h: Handle, count: nat, allocOk: bool) returns (h': Handle, r: Result<bytes, Errno>)
      requires m.Valid() && h.entry < |m.entries| && CacheOk(h) && h.entry != PACK_DIRECTORY_ENTRY
      ensures CacheOk(h') && h'.used == h.used && h'.fd == h.fd
      ensures r == Failure(NoMemory) || r == Success(Window(ContentOf(h.entry), h.position, count))
      ensures allocOk ==> r.Success?
      ensures CursorOf(h') == if r.Success? then CursorOf(h).(position := h.position + |r.value|) else CursorOf(h)
    {
      h' := h;
      if h.position >= m.entries[h.entry].size {
        r := Success([]);
      } else if count > PACK_CACHE_SIZE / 2 {
        r := ReadHandleAt(h, count, h.position);
        h' := h.(position := h.position + |r.value|);
      } else {
        h', r := ReadCached(h, count, allocOk);
      }
    }

    /** `asset_pack_read_fd`: whatever the sizes and the cache, a read answers and advances as a plain cursor does. */
    method Read(fd: int, count: nat, allocOk: bool) returns (r: Result<bytes, Errno>)
      requires Valid()
      modifies this
      ensures Valid() && openFds == old(openFds)
      ensures fd in old(View(handles)) ==> EntryValid(old(View(handles))[fd].entry)
      ensures r == Failure(NoMemory) || r == PlainRead(old(View(handles)), fd, count)
      ensures allocOk ==> r != Failure(NoMemory)
      ensures r.Success? ==>
        var c := old(View(handles))[fd];
        View(handles) == old(View(handles))[fd := c.(position := c.position + |r.value|)]
      ensures r.Failure? ==> View(handles) == old(View(handles))
    {
      ghost var v := View(handles);
      var slot := GetHandle(fd);
      if slot.None? {
        return Failure(EBADF);
      }
      var h := handles[slot.value];
      if h.entry == PACK_DIRECTORY_ENTRY {
        return Failure(EISDIR);
      }
      h, r := ReadFile(h, count, allocOk);
      Store(slot.value, h);
      assert r.Failure? ==> View(handles) == v;
    }

    /** `asset_pack_pread_fd`. */
    method PRead(fd: int, count: nat, offset: int) returns (r: Result<bytes, Errno>)
      requires Valid()
      ensures fd in View(handles) ==> EntryValid(View(handles)[fd].entry)
      ensures r == if fd !in View(handles) || offset < 0 then Failure(EINVAL)
                   else if View(handles)[fd].entry == PACK_DIRECTORY_ENTRY then Failure(EISDIR)
                   else Success(Window(ContentOf(View(handles)[fd].entry), offset, count))
    {
      var slot := GetHandle(fd);
      if slot.None? || offset < 0 {
        return Failure(EINVAL);
      }
      r := ReadHandleAt(handles[slot.value], count, offset);
    }

    /** `asset_pack_lseek_fd`. */
    method LSeek(fd: int, offset: int, whence: Whence) returns (r: Result<nat, Errno>)
      requires Valid()
      modifies this
      ensures Valid() && openFds == old(openFds)
      ensures fd !in old(View(handles)) ==> r == Failure(EBADF)
      ensures fd in old(View(handles)) ==> EntryValid(old(View(handles))[fd].entry)
      ensures fd in old(View(handles)) ==>
        var c := old(View(handles))[fd];
        r == if c.entry == PACK_DIRECTORY_ENTRY then Failure(EISDIR)
             else
               var base := match whence
                           case SeekSet => 0
                           case SeekCur => c.position
                           case SeekEnd => |ContentOf(c.entry)|
                           case SeekOther => -1;
               if base < 0 || base + offset < 0 then Failure(EINVAL) else Success(base + offset)
      ensures View(handles) ==
        if r.Success? then old(View(handles))[fd := old(View(handles))[fd].(position := r.value)]
          else old(View(handles))
    {
      var slot := GetHandle(fd);
      if slot.None? {
        return Failure(EBADF);
      }
      var h := handles[slot.value];
      if h.entry == PACK_DIRECTORY_ENTRY {
        return Failure(EISDIR);
      }
      var base := match whence
                  case SeekSet => 0
                  case SeekCur => h.position
                  case SeekEnd => m.entries[h.entry].size
                  case SeekOther => -1;
      assert m.EntryOk(h.entry);
      if base < 0 || (offset < 0 && base < -offset) {
        return Failure(EINVAL);
      }
      h := h.(position := base + offset);
      Store(slot.value, h);
      return Success(h.position);
    }
  }

  /** The fds of the first `n` slots. */
  ghost function Fds(hs: seq<Handle>, n: nat): set<int>
    requires n <= |hs|
    decreases n, |hs|
  {
    if n == 0 then {} else Fds(hs, n - 1) + if hs[n - 1].used then {hs[n - 1].fd} else {}
  }

  lemma {:induction false} FdsAre(hs: seq<Handle>, n: nat, fd: int)
    requires n <= |hs|
    ensures fd in Fds(hs, n) <==> exists i :: 0 <= i < n && hs[i].used && hs[i].fd == fd
  {
    if n > 0 {
      FdsAre(hs, n - 1, fd);
      if hs[n - 1].used && hs[n - 1].fd == fd {
        assert 0 <= n - 1 < n;
      }
    }
  }

  lemma {:induction false} FdsStep(hs: seq<Handle>, n: nat)
    requires Distinct(hs) && n < |hs|
    ensures |Fds(hs, n + 1)| == |Fds(hs, n)| + if hs[n].used then 1 else 0
  {
    FdsAre(hs, n, hs[n].fd);
    assert hs[n].used ==> hs[n].fd !in Fds(hs, n);
  }

  lemma {:induction false} NoFds(hs: seq<Handle>)
    ensures Fds(hs, 0) == {}
  {
  }

  lemma {:induction false} FdsCount(hs: seq<Handle>, n: nat)
    requires Distinct(hs) && n <= |hs|
    ensures |Fds(hs, n)| <= n
    ensures (forall i :: 0 <= i < n ==> hs[i].used) ==> |Fds(hs, n)| == n
    ensures (exists i :: 0 <= i < n && !hs[i].used) ==> |Fds(hs, n)| < n
  {
    hide Fds, Distinct;
    NoFds(hs);
    if n > 0 {
      FdsCount(hs, n - 1);
      FdsStep(hs, n - 1);
    }
  }

  lemma {:induction false} ViewCount(hs: seq<Handle>)
    requires Distinct(hs)
    ensures |View(hs)| == |Fds(hs, |hs|)|
  {
    ViewHolds(hs, |hs|);
    forall fd ensures fd in View(hs) <==> fd in Fds(hs, |hs|) {
      FdsAre(hs, |hs|, fd);
      if fd in Fds(hs, |hs|) {
        var i :| 0 <= i < |hs| && hs[i].used && hs[i].fd == fd;
        assert At(hs, |hs|, i, fd);
      } else if fd in View(hs) {
        var i := ViewSlot(hs, fd);
      }
    }
    assert View(hs).Keys == Fds(hs, |hs|);
  }

  lemma {:induction false} FreeSlotCount(hs: seq<Handle>, i: nat)
    requires Distinct(hs) && i < |hs| && !hs[i].used
    ensures |View(hs)| < |hs|
  {
    FdsCount(hs, |hs|);
    ViewCount(hs);
  }

  lemma {:induction false} FullCount(hs: seq<Handle>)
    requires Distinct(hs) && forall i :: 0 <= i < |hs| ==> hs[i].used
    ensures |View(hs)| == |hs|
  {
    FdsCount(hs, |hs|);
    ViewCount(hs);
  }

  lemma {:induction false} PutBack<K, V>(v: map<K, V>, k: K, x: V)
    ensures (v - {k})[k := x] == v[k := x]
  {
  }

  lemma {:induction false} RemoveCount<K, V>(v: map<K, V>, k: K)
    requires k in v
    ensures |v - {k}| == |v| - 1
  {
    assert (v - {k}).Keys == v.Keys - {k};
  }
}
