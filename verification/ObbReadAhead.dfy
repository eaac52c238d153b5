/** The adaptive read-ahead window in front of the game's OBB file. */
module ObbReadAhead {
  import opened Bytes
  import opened Slices

  type bytes = seq<byte>

  const RA_MIN := 0x8000
  const RA_MAX := 0x4_0000
  const BUF_SIZE := 0x4_2000

  datatype Whence = SeekSet | SeekCur | SeekEnd

  /** `pos & ~0xFFF`. */
  function PageOf(pos: nat): (start: nat)
    ensures start <= pos < start + 0x1000 && start % 0x1000 == 0
  {
    pos - pos % 0x1000
  }

  /** What a plain read of `count` bytes at `pos` delivers. */
  function PlainRead(content: bytes, pos: nat, count: nat): bytes {
    if pos < |content| then content[pos..Min(pos + count, |content|)] else []
  }

  lemma {:induction false} PlainReadMore(content: bytes, p: nat, done: nat, n: nat)
    requires p + done + n <= |content|
    ensures PlainRead(content, p, done + n) == PlainRead(content, p, done) + content[p + done..p + done + n]
  {
    Adjacent(content, p, p + done, p + done + n);
  }

  // ---- the cursor it stands for ----

  /** What a seek returns, and where it leaves the position. */
  datatype Sought = Sought(returned: int, pos: nat)

  function Target(size: nat, pos: nat, off: int, whence: Whence): int {
    match whence case SeekSet => off case SeekCur => pos + off case SeekEnd => size + off
  }

  /** A plain `lseek` on a file: a negative target fails and moves nothing. */
  function PlainSeek(file: bytes, pos: nat, off: int, whence: Whence): Sought {
    var target := Target(|file|, pos, off, whence);
    if target < 0 then Sought(-1, pos) else Sought(target, target)
  }

  /** What a plain read delivers, byte by byte. */
  lemma {:induction false} PlainReadIs(content: bytes, pos: nat, count: nat)
    ensures |PlainRead(content, pos, count)| == if pos >= |content| then 0 else Min(count, |content| - pos)
    ensures forall i :: 0 <= i < |PlainRead(content, pos, count)| ==>
      PlainRead(content, pos, count)[i] == content[pos + i]
  {
  }

  /** Reading on from where a read has come to reads on in the file. */
  lemma {:induction false} ReadOn(file: bytes, pos: nat, n: nat)
    ensures
      var read := PlainRead(file, pos, n);
      read + PlainRead(file, PlainSeek(file, pos, |read|, SeekCur).pos, n) == PlainRead(file, pos, n + n)
  {
    if pos + n < |file| {
      Adjacent(file, pos, pos + n, Min(pos + n + n, |file|));
    }
  }

  /** Seeking: from the start, on and back again, from the end; a position before the start is refused. */
  lemma {:induction false} PlainSeekLaws(file: bytes, pos: nat, n: nat, back: int)
    requires back + n == 0
    ensures PlainSeek(file, pos, n, SeekSet) == Sought(n, n)
    ensures PlainSeek(file, PlainSeek(file, pos, n, SeekCur).pos, back, SeekCur) == Sought(pos, pos)
    ensures n <= |file| ==> PlainRead(file, PlainSeek(file, pos, back, SeekEnd).pos, n) == file[|file| - n..]
    ensures n > |file| ==> PlainSeek(file, pos, back, SeekEnd) == Sought(-1, pos)
  {
  }

  /** What a slot that took the file for `size` bytes does instead: a negative target goes to the start. */
  function SlotSeek(size: nat, pos: nat, off: int, whence: Whence): Sought {
    var target := Max(0, Target(size, pos, off, whence));
    Sought(target, target)
  }

  /** What such a slot reads when the card never fails. */
  function SlotRead(file: bytes, size: nat, pos: nat, count: nat): bytes
    requires size <= |file|
  {
    PlainRead(file[..size], pos, count)
  }

  lemma {:induction false} SlotReadNone(file: bytes, size: nat, pos: nat)
    requires size <= |file|
    ensures SlotRead(file, size, pos, 0) == []
  {
  }

  lemma {:induction false} SlotReadMore(file: bytes, size: nat, pos: nat, done: nat, n: nat)
    requires pos + done + n <= size <= |file|
    ensures SlotRead(file, size, pos, done + n) == SlotRead(file, size, pos, done) + file[pos + done..pos + done + n]
  {
    PlainReadMore(file[..size], pos, done, n);
    OfPrefix(file[..size], file, pos + done, pos + done + n);
  }

  /** Where a read has delivered all there is. */
  lemma {:induction false} SlotReadDone(file: bytes, size: nat, pos: nat, done: nat, count: nat)
    requires size <= |file| && done <= count && (done == count || pos + done >= size)
      && (done > 0 ==> pos + done <= size)
    ensures SlotRead(file, size, pos, count) == SlotRead(file, size, pos, done)
      && |SlotRead(file, size, pos, count)| <= done
  {
  }

  /** With the size known, a seek is that of a plain cursor exactly when its target is not negative. */
  lemma {:induction false} SeekAgrees(file: bytes, pos: nat, off: int, whence: Whence)
    ensures SlotSeek(|file|, pos, off, whence) == PlainSeek(file, pos, off, whence) <==>
      Target(|file|, pos, off, whence) >= 0
  {
  }

  /** With `fstat` failed, a seek from the end goes elsewhere too, but for one that would go to the start. */
  lemma {:induction false} BlindSeekAgrees(file: bytes, pos: nat, off: int, whence: Whence)
    requires file != []
    ensures SlotSeek(0, pos, off, whence) == PlainSeek(file, pos, off, whence) <==>
      var target := Target(|file|, pos, off, whence);
      target >= 0 && (whence == SeekEnd ==> target == 0)
  {
  }

  /** With `fstat` failed, a read is that of a plain cursor exactly when that one would read nothing. */
  lemma {:induction false} ReadAgrees(file: bytes, size: nat, pos: nat, count: nat)
    requires size == |file| || size == 0
    ensures SlotRead(file, size, pos, count) == PlainRead(file, pos, count) <==>
      size == |file| || count == 0 || pos >= |file|
  {
    Whole(file);
  }

  /** `lseek(fd, -1, SEEK_SET)` must fail; here it goes to the start. */
  lemma {:induction false} NegativeSeekExample(file: bytes, pos: nat)
    ensures PlainSeek(file, pos, -1, SeekSet) == Sought(-1, pos) && SlotSeek(|file|, pos, -1, SeekSet) == Sought(0, 0)
  {
  }

  /** One byte, and `fstat` failed: the slot says end of file. */
  lemma {:induction false} BlindReadExample()
    ensures PlainRead([7], 0, 1) == [7] && SlotRead([7], 0, 0, 1) == []
  {
  }

  // ---- the cost of a sequential run ----

  /** The window after the `n`-th sequential refill. */
  function Window(n: nat): (w: nat)
    ensures RA_MIN <= w <= RA_MAX && w % 0x1000 == 0
    decreases n
  {
    if n <= 1 then RA_MIN else Min(2 * Window(n - 1), RA_MAX)
  }

  lemma {:induction false} PagesAdd(a: nat, b: nat)
    requires a % 0x1000 == 0 && b % 0x1000 == 0
    ensures (a + b) % 0x1000 == 0
  {
  }

  /** How much of the file the first `n` sequential refills cover. */
  function Cover(n: nat): (c: nat)
    ensures c % 0x1000 == 0
    decreases n
  {
    if n == 0 then 0
    else
      PagesAdd(Cover(n - 1), Window(n));
      Cover(n - 1) + Window(n)
  }

  function CeilDiv(a: nat, b: nat): nat
    requires b > 0
  {
    (a + b - 1) / b
  }

  lemma {:induction false} WindowSteady(n: nat)
    requires n >= 4
    ensures Window(n) == RA_MAX
    decreases n
  {
    if n == 4 {
      assert Window(1) == 0x8000;
      assert Window(2) == 0x1_0000;
      assert Window(3) == 0x2_0000;
    } else {
      WindowSteady(n - 1);
    }
  }

  /** 32, 64 and 128 KiB, then 256 KiB each time. */
  lemma {:induction false} CoverClosed(n: nat)
    requires n >= 3
    ensures Cover(n) == 0x3_8000 + (n - 3) * 0x4_0000
    decreases n
  {
    if n == 3 {
      assert Window(1) == 0x8000;
      assert Window(2) == 0x1_0000;
      assert Window(3) == 0x2_0000;
      assert Cover(1) == 0x8000;
      assert Cover(2) == 0x1_8000;
    } else {
      CoverClosed(n - 1);
      WindowSteady(n);
    }
  }

  /** A refill is made only when everything fetched before has been served and one byte more is wanted. */
  lemma {:induction false} RefillBound(n: nat, served: nat)
    requires n > 0 ==> Cover(n - 1) < served
    ensures n <= 3 + CeilDiv(Max(0, served - 0x3_8000), 0x4_0000)
  {
    if n > 3 {
      CoverClosed(n - 1);
    }
  }

  /** `memcpy` between different buffers. */
  method CopyBytes(dst: array<byte>, at: nat, src: array<byte>, from: nat, n: nat)
    requires dst != src && at + n <= dst.Length && from + n <= src.Length
    modifies dst
    ensures dst[..at + n] == old(dst[..at]) + src[from..from + n]
    ensures forall k :: at + n <= k < dst.Length ==> dst[k] == old(dst[k])
  {
    forall k | 0 <= k < n {
      dst[at + k] := src[from + k];
    }
  }

  /** One slot of the table; `file` and `faults` are the card: its bytes and the places where it fails to read. */
  class ObbSlot {
    const file: bytes
    const faults: set<nat>
    const buf: array<byte>
    const size: nat
    var pos: nat
    var bufStart: nat
    var bufLen: nat
    var ra: nat
    var seqNext: int
    ghost var refills: nat
    ghost var fetched: nat

    ghost predicate Valid()
      reads this, buf
    {
      && (size == |file| || size == 0)
      && buf.Length == BUF_SIZE && bufLen <= BUF_SIZE && bufStart + bufLen <= |file|
      && RA_MIN <= ra <= RA_MAX
      && buf[..bufLen] == file[bufStart..bufStart + bufLen]
    }

    /** The buffer holds the byte at `p`. */
    predicate Buffered(p: nat)
      reads this
    {
      bufStart <= p < bufStart + bufLen
    }

    /** The slot as a run of reads without seeks leaves it. */
    ghost predicate Streaming()
      reads this
    {
      && pos <= bufStart + bufLen == fetched == Min(Cover(refills), size)
      && (refills == 0 ==> seqNext == -1)
      && (refills > 0 ==> bufStart == Cover(refills - 1) <= pos && ra == Window(refills) && seqNext == fetched)
    }

    /** Nothing was fetched that was not wanted when it was fetched. */
    ghost predicate Wanted()
      reads this
    {
      refills > 0 ==> Cover(refills - 1) < pos
    }

    /** `obb_track` on a slot; `statOk` tells whether the size could be found out. */
    constructor (file: bytes, faults: set<nat>, statOk: bool)
      ensures Valid() && fresh(buf) && this.file == file && this.faults == faults
      ensures size == (if statOk then |file| else 0) && pos == 0
      ensures Streaming() && Wanted() && refills == 0
    {
      this.file, this.faults := file, faults;
      buf := new byte[BUF_SIZE];
      size := if statOk then |file| else 0;
      pos, bufStart, bufLen, ra, seqNext := 0, 0, 0, RA_MIN, -1;
      refills, fetched := 0, 0;
    }

    /** The adaptive window: doubled while the reads are sequential, reset by a jump. */
    method Adapt()
      requires RA_MIN <= ra <= RA_MAX
      modifies this`ra
      ensures ra == if pos == seqNext then Min(2 * old(ra), RA_MAX) else RA_MIN
    {
      if pos == seqNext {
        ra := ra * 2;
        if ra > RA_MAX {
          ra := RA_MAX;
        }
      } else {
        ra := RA_MIN;
      }
    }

    /** The backing read, short only at the end of the file. */
    method Fetch(start: nat, rsize: nat)
      requires buf.Length == BUF_SIZE && rsize <= BUF_SIZE && start <= |file|
      modifies this`bufStart, this`bufLen, this`seqNext, this`refills, this`fetched, buf
      ensures bufStart == start && bufLen == Min(rsize, |file| - start) && seqNext == start + bufLen
      ensures refills == old(refills) + 1 && fetched == old(fetched) + bufLen
      ensures buf[..bufLen] == file[start..start + bufLen]
    {
      var got := Min(rsize, |file| - start);
      forall k | 0 <= k < got {
        buf[k] := file[start + k];
      }
      bufStart, bufLen, seqNext := start, got, start + got;
      refills, fetched := refills + 1, fetched + got;
    }

    /** The refill branch: moves the window over the position; false when the card fails. */
    method Refill() returns (ok: bool)
      requires Valid() && pos < size && !Buffered(pos)
      modifies this`bufStart, this`bufLen, this`ra, this`seqNext, this`refills, this`fetched, buf
      ensures Valid() && (ok <==> PageOf(pos) !in faults)
      ensures ok ==> Buffered(pos) && bufStart == PageOf(pos) && seqNext == bufStart + bufLen
      ensures ok ==> bufLen == Min(ra + pos - bufStart, |file| - bufStart)
      ensures ra == if pos == old(seqNext) then Min(2 * old(ra), RA_MAX) else RA_MIN
      ensures ok ==> refills == old(refills) + 1 && fetched == old(fetched) + bufLen
      ensures !ok ==> bufStart == old(bufStart) && bufLen == old(bufLen)
    {
      Adapt();
      var start := PageOf(pos);
      var rsize := ra + (pos - start);
      if rsize > BUF_SIZE {
        rsize := BUF_SIZE;
      }
      if start in faults {
        return false;
      }
      Fetch(start, rsize);
      return true;
    }

    /** A refill in a run of sequential reads asks for the next whole window, from where the last one ended. */
    twostate lemma StreamRefilled()
      requires old(Valid() && Streaming() && pos < size && !Buffered(pos)) && pos == old(pos)
      requires bufStart == PageOf(pos) && bufLen == Min(ra + pos - bufStart, |file| - bufStart)
      requires seqNext == bufStart + bufLen && fetched == old(fetched) + bufLen && refills == old(refills) + 1
      requires ra == if pos == old(seqNext) then Min(2 * old(ra), RA_MAX) else RA_MIN
      ensures Streaming() && bufStart == pos == Cover(refills - 1)
    {
      assert pos == Cover(old(refills));
      assert ra == Window(refills);
    }

    /** Serves `n` buffered bytes. */
    method Serve(dst: array<byte>, done: nat, n: nat)
      requires Valid() && dst != buf && done + n <= dst.Length && Buffered(pos) && pos + n <= bufStart + bufLen
      modifies this`pos, dst
      ensures Valid() && pos == old(pos) + n
      ensures forall k :: done + n <= k < dst.Length ==> dst[k] == old(dst[k])
      ensures dst[..done + n] == old(dst[..done]) + file[old(pos)..old(pos) + n]
    {
      var off := pos - bufStart;
      ghost var piece := file[pos..pos + n];
      assert piece == buf[off..off + n] by {
        OfSlice(file, bufStart, bufLen, off, off + n);
        OfPrefix(buf[..bufLen], buf[..], off, off + n);
      }
      CopyBytes(dst, done, buf, off, n);
      pos := pos + n;
    }

    /** Makes sure that the byte at the position is buffered: false when the card fails. */
    method EnsureBuffered() returns (ok: bool)
      requires Valid() && pos < size
      modifies this`bufStart, this`bufLen, this`ra, this`seqNext, this`refills, this`fetched, buf
      ensures Valid() && (if ok then Buffered(pos) else PageOf(pos) in faults)
      ensures ok && old(Streaming()) ==> Streaming()
    {
      hide Cover, Window, PageOf;
      ok := true;
      if pos < bufStart || pos >= bufStart + bufLen {
        ok := Refill();
        if ok && old(Streaming()) {
          StreamRefilled();
        }
      }
    }

    /** One turn of the read loop: false when the card fails. */
    method Turn(dst: array<byte>, done: nat, count: nat) returns (ok: bool, n: nat)
      requires Valid() && dst != buf && done < count <= dst.Length && pos < size
      modifies this`pos, this`bufStart, this`bufLen, this`ra, this`seqNext, this`refills, this`fetched, dst, buf
      ensures Valid() && pos == old(pos) + n && (if ok then 0 < n <= count - done && pos <= size else n == 0)
      ensures !ok ==> PageOf(pos) in faults
      ensures forall k :: done + n <= k < dst.Length ==> dst[k] == old(dst[k])
      ensures dst[..done + n] == old(dst[..done]) + file[old(pos)..old(pos) + n]
      ensures ok && old(Streaming()) ==> Streaming() && Wanted()
    {
      hide Cover, Window, PageOf;
      ok := EnsureBuffered();
      if !ok {
        return false, 0;
      }
      var avail := bufLen - (pos - bufStart);
      n := count - done;
      if n > avail {
        n := avail;
      }
      Serve(dst, done, n);
    }

    /**
     * `read_fake`: what the slot's size lets through of the plain read. It stops short only where the card does not
     * give the page of the next byte; when it never fails, the bytes are those of the plain read exactly when the size
     * is known or the plain read has none.
     */
    method Read(dst: array<byte>, count: nat) returns (done: nat)
      requires Valid() && dst != buf && count <= dst.Length
      modifies this`pos, this`bufStart, this`bufLen, this`ra, this`seqNext, this`refills, this`fetched, dst, buf
      ensures Valid() && pos == old(pos) + done && done <= count
      ensures dst[..done] == SlotRead(file, size, old(pos), done)
      ensures forall k :: done <= k < dst.Length ==> dst[k] == old(dst[k])
      ensures done < |SlotRead(file, size, old(pos), count)| ==> PageOf(pos) in faults
      ensures faults == {} ==> dst[..done] == SlotRead(file, size, old(pos), count)
      ensures faults == {} ==>
        (dst[..done] == PlainRead(file, old(pos), count) <==> size == |file| || count == 0 || old(pos) >= |file|)
      ensures faults == {} && old(Streaming() && Wanted()) ==> Streaming() && Wanted()
    {
      hide SlotRead, PlainRead, Streaming, Wanted, PageOf;
      done := 0;
      ghost var p := pos;
      SlotReadNone(file, size, p);
      while done < count && pos < size
        invariant Valid() && done <= count && pos == p + done && (done > 0 ==> pos <= size)
        invariant dst[..done] == SlotRead(file, size, p, done)
        invariant forall k :: done <= k < dst.Length ==> dst[k] == old(dst[k])
        invariant old(Streaming() && Wanted()) ==> Streaming() && Wanted()
        decreases count - done
      {
        var ok, n := Turn(dst, done, count);
        if !ok {
          break;
        }
        SlotReadMore(file, size, p, done, n);
        done := done + n;
      }
      if done == count || pos >= size {
        SlotReadDone(file, size, p, done, count);
      }
      ReadAgrees(file, size, p, count);
    }

    /** `lseek_fake`: with the size known, a plain seek exactly when the target is not negative. */
    method LSeek(off: int, whence: Whence) returns (np: nat)
      requires Valid()
      modifies this`pos
      ensures Valid() && Sought(np, pos) == SlotSeek(size, old(pos), off, whence)
      ensures size == |file| ==>
        (Sought(np, pos) == PlainSeek(file, old(pos), off, whence) <==> Target(|file|, old(pos), off, whence) >= 0)
    {
      var target := match whence case SeekSet => off case SeekCur => pos + off case SeekEnd => size + off;
      if target < 0 {
        target := 0;
      }
      pos := target;
      return pos;
    }
  }

  /**
   * After a run of reads without seeks from a fresh slot: one refill for the first 32 KiB, one for the next 64, one
   * for the next 128, then one for each 256 KiB; each asked for its page-aligned window and nothing else, and no byte
   * of the file was fetched twice.
   */
  lemma {:induction false} StreamCost(slot: ObbSlot)
    requires slot.Streaming() && slot.Wanted()
    ensures slot.refills <= 3 + CeilDiv(Max(0, slot.pos - 0x3_8000), 0x4_0000)
    ensures slot.pos <= slot.fetched <= slot.size
    ensures slot.refills > 0 ==> slot.bufStart % 0x1000 == 0 && slot.fetched - slot.bufStart <= slot.ra
  {
    RefillBound(slot.refills, slot.pos);
  }

  // ---- the table of descriptors ----

  /** The first slot from `i` on with that descriptor. */
  function Answers(fds: seq<int>, fd: int, i: nat): (slot: Option<nat>)
    requires i <= |fds|
    ensures slot.Some? ==> i <= slot.value < |fds| && fds[slot.value] == fd
    ensures slot.None? <==> fd !in fds[i..]
    decreases |fds| - i
  {
    if i == |fds| then None
    else if fds[i] == fd then
      assert fds[i..][0] == fd;
      Some(i)
    else
      assert fds[i..] == [fds[i]] + fds[i + 1..];
      Answers(fds, fd, i + 1)
  }

  predicate IsTable(fds: seq<int>) {
    && |fds| == 8 && (forall i :: 0 <= i < 8 ==> fds[i] >= -1)
    && forall i, j :: 0 <= i < j < 8 && fds[i] == fds[j] ==> fds[i] == -1
  }

  /** The descriptor belongs to an OBB file that is read ahead. */
  predicate Tracked(fds: seq<int>, fd: int) { fd >= 0 && fd in fds }

  /** A call is served by a slot just when its descriptor is tracked, except that -1 is served while a slot is free. */
  lemma {:induction false} ServesTracked(fds: seq<int>, fd: int)
    requires IsTable(fds)
    ensures (Answers(fds, fd, 0).Some? <==> Tracked(fds, fd)) <==> fd != -1 || -1 !in fds
  {
    Whole(fds);
  }

  /** The real slot of a tracked descriptor is the one that answers. */
  lemma {:induction false} AnswersItsOwn(fds: seq<int>, fd: nat, slot: nat)
    requires IsTable(fds) && slot < 8 && fds[slot] == fd
    ensures Answers(fds, fd, 0) == Some(slot)
  {
    Whole(fds);
    var found := Answers(fds, fd, 0).value;
    assert found < slot || slot < found || found == slot;
  }

  /**
   * On a table with nothing tracked, `read(-1)`, `lseek(-1)` and `close(-1)` go to the first slot instead of failing.
   */
  lemma {:induction false} FreeSlotExample(fds: seq<int>)
    requires |fds| == 8 && forall i :: 0 <= i < 8 ==> fds[i] == -1
    ensures IsTable(fds) && Answers(fds, -1, 0) == Some(0) && !Tracked(fds, -1)
  {
  }

  /** The eight slots' descriptors; -1 is a free slot. */
  class ObbTable {
    const fds: array<int>

    ghost predicate Valid()
      reads this, fds
    {
      IsTable(fds[..])
    }

    constructor ()
      ensures Valid() && fresh(fds) && forall i :: 0 <= i < 8 ==> fds[i] == -1
    {
      fds := new int[8](_ => -1);
    }

    /** `obb_find`. */
    method Find(fd: int) returns (slot: Option<nat>)
      requires Valid()
      ensures slot == Answers(fds[..], fd, 0)
      ensures (slot.Some? <==> Tracked(fds[..], fd)) <==> fd != -1 || -1 !in fds[..]
    {
      ServesTracked(fds[..], fd);
      for i := 0 to 8
        invariant Answers(fds[..], fd, 0) == Answers(fds[..], fd, i)
      {
        if fds[i] == fd {
          return Some(i);
        }
      }
      return None;
    }

    /** The search of `obb_track`: the first free slot takes the descriptor; with none free it stays untracked. */
    method Track(fd: nat) returns (slot: Option<nat>)
      requires Valid() && fd !in fds[..]
      modifies fds
      ensures Valid() && slot == Answers(old(fds[..]), -1, 0)
      ensures fds[..] == if slot.Some? then old(fds[..])[slot.value := fd] else old(fds[..])
      ensures Tracked(fds[..], fd) <==> -1 in old(fds[..])
    {
      ghost var before := fds[..];
      Whole(before);
      for i := 0 to 8
        invariant fds[..] == before && Answers(before, -1, 0) == Answers(before, -1, i)
      {
        if fds[i] < 0 {
          assert before[i] == -1;
          fds[i] := fd;
          assert fds[..][i] == fd;
          return Some(i);
        }
      }
      return None;
    }

    /** `close_fake`: the slot that answers to the descriptor is freed. */
    method Close(fd: int)
      requires Valid()
      modifies fds
      ensures Valid() && !Tracked(fds[..], fd)
      ensures forall i :: 0 <= i < 8 ==> fds[i] == if old(fds[i]) == fd then -1 else old(fds[i])
    {
      ghost var before := fds[..];
      Whole(before);
      var slot := Find(fd);
      if slot.Some? {
        fds[slot.value] := -1;
        forall i | 0 <= i < 8 && i != slot.value ensures before[i] != fd || fd == -1 {
          assert i < slot.value || slot.value < i;
        }
      }
    }
  }
}
