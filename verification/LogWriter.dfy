// The log writer of tinyfs (dev/module/tinyfs/tinyfs.c:204-213, 283-296, 806-867, 956-962, 1512-1524).
module LogWriter {
  import opened Nor
  import opened WriteBehind
  import opened Ring
  import opened Layout

  // Unwritten bytes of the tail section, and of the sections not in use.
  function Free(h: History, lo: nat): int {
    S - TailOffset(h) + C * (N + lo - |h|)
  }

  lemma PositiveFactor(c: nat, m: int)
    requires c * m > 0
    ensures m > 0
  {
  }

  lemma FreeNeedsSection(h: History, lo: nat)
    requires TailOffset(h) == S && Free(h, lo) > 0
    ensures |h| < lo + N
  {
    PositiveFactor(C, N + lo - |h|);
  }

  lemma {:induction false} Doubles(c: nat, m: nat)
    requires m >= 2
    ensures c * m >= 2 * c
    decreases m
  {
    if m > 2 {
      Doubles(c, m - 1);
    }
  }

  lemma FreeWhenFewInUse(h: History, lo: nat)
    requires Wf(h) && lo <= |h| <= lo + 1
    ensures Free(h, lo) >= 2 * C
  {
    Doubles(C, N + lo - |h|);
    assert TailOffset(h) <= S;
  }

  lemma SpareSection(h: History, lo: nat)
    requires Wf(h) && |h| <= lo + N && Free(h, lo) > C
    ensures |h| < lo + N
  {
    PositiveFactor(C, N + lo - |h|);
  }

  lemma FreeAfterExtend(h: History, lo: nat, data: seq<byte>)
    requires h != []
    ensures Free(Extend(h, data), lo) == Free(h, lo) - |data|
  {
  }

  lemma FreeAfterPadding(h: History, lo: nat)
    requires Wf(h)
    ensures Free(Padded(h), lo) == Free(h, lo) - PadLength(h) && (PadLength(h) == 0 ==> Padded(h) == h)
  {
  }

  lemma FreeAfterOpen(h: History, lo: nat, nodeOffset: u16)
    requires TailOffset(h) == S
    ensures Free(Open(h, nodeOffset), lo) == Free(h, lo)
  {
    hide HeadBytes;
    OneSectionLess(C, N + lo - |h|);
  }

  lemma OneSectionLess(c: nat, m: int)
    ensures c * (m - 1) == c * m - c
    ensures c * (m + 1) == c * m + c
  {
  }

  lemma FreeAfterReclaim(h: History, lo: nat)
    ensures Free(h, lo + 1) == Free(h, lo) + C
  {
    OneSectionLess(C, N + lo - |h|);
  }

  // The cache holds exactly the bytes of the tail's unfinished page.
  ghost predicate Buffered(idx: nat, cbo: nat, h: History) {
    && idx == TailOffset(h) % PAGE
    && (idx > 0 ==> h != [] && cbo == At(|h| - 1, TailOffset(h) - idx))
  }

  lemma BufferedExtends(idx: nat, cbo: nat, h: History, data: seq<byte>)
    requires h != [] && TailOffset(h) + |data| <= S
    requires var end := At(|h| - 1, TailOffset(h)) + |data|;
             end % PAGE == idx && (idx > 0 ==> cbo == end - idx)
    ensures Buffered(idx, cbo, Extend(h, data))
  {
    AtInRing(|h| - 1, TailOffset(h) + |data|);
  }

  lemma BufferedOpens(idx: nat, cbo: nat, h: History)
    requires Buffered(idx, cbo, h) && TailOffset(h) == S
    ensures idx == 0 && Buffered(idx, cbo, h + [[]])
  {
    Aligned(S, 0);
  }

  lemma PadEndsPage(h: History, idx: nat, cbo: nat)
    requires Wf(h) && Buffered(idx, cbo, h) && PadLength(h) > 0
    ensures var e, pad := TailOffset(h), PadLength(h);
            && idx > 0 && h != [] && e + pad <= S && (e + pad) % PAGE == 0
            && (e + PAGE) / PAGE * PAGE == e + pad
            && cbo == At(|h| - 1, e + pad) - PAGE
            && Padded(h) == Extend(h, seq(pad, _ => ERASED)) && Wf(Padded(h)) && TailOffset(Padded(h)) == e + pad
  {
    PageBelow(TailOffset(h));
  }

  lemma BufferedNothing(cbo: nat, h: History)
    requires TailOffset(h) % PAGE == 0
    ensures Buffered(0, cbo, h)
  {
  }

  lemma NextAddress(idx: nat, cbo: nat, h: History, len: nat)
    requires h != [] && TailOffset(h) + len <= S && Buffered(idx, cbo, h)
    ensures var a := At(|h| - 1, TailOffset(h));
            && a % PAGE == idx && (idx > 0 ==> a >= idx && cbo == a - idx)
            && a + len <= SlotBase(N)
            && (a + len) % PAGE == (TailOffset(h) + len) % PAGE
  {
    AtInRing(|h| - 1, TailOffset(h));
    AtInRing(|h| - 1, TailOffset(h) + len);
  }

  lemma HoldsAll(m: Medium, h: History, lo: nat)
    requires Holds(m, h, lo)
    ensures SlotBase(N) <= |m.view|
  {
  }

  lemma LaidIs(m: Medium, m': Medium, h: History, data: seq<byte>)
    requires h != []
    ensures var e, a := TailOffset(h), At(|h| - 1, TailOffset(h));
            LaidAtTail(m, m', h, data) <==> Laid(m, m', a, data, a - e % PAGE, a + |data| - (e + |data|) % PAGE)
  {
    hide Laid, At;
  }

  lemma OpensWf(h: History, nodeOffset: u16)
    requires Wf(h) && TailOffset(h) == S
    ensures Wf(Open(h, nodeOffset)) && TailOffset(Open(h, nodeOffset)) == HEAD && |Open(h, nodeOffset)| == |h| + 1
  {
    hide HeadBytes;
  }

  lemma BufferedIs(idx: nat, cbo: nat, h: History)
    requires Buffered(idx, cbo, h)
    ensures idx == TailOffset(h) % PAGE
  {
  }

  lemma NextSlot(h: History)
    ensures Next(if h == [] then N - 1 else Phys(|h| - 1)) == Phys(|h|)
  {
  }

  lemma CountOn(n: nat)
    ensures (n % 0x1_0000 + 1) % 0x1_0000 == (n + 1) % 0x1_0000
  {
  }

  lemma ExtendShape(h: History, data: seq<byte>)
    requires Wf(h) && h != [] && TailOffset(h) + |data| <= S
    ensures Wf(Extend(h, data)) && |Extend(h, data)| == |h| && TailOffset(Extend(h, data)) == TailOffset(h) + |data|
    ensures |h[|h| - 1]| + |data| <= S
  {
  }

  // The slot after that of section `k` is that of the next section, or of the oldest.
  lemma NextTurn(k: nat, lo: nat)
    ensures Next(Phys(k)) == Phys(k + 1) && Phys(lo + N) == Phys(lo)
  {
    PhysShift(lo, N);
  }

  lemma AtIs(k: nat, off: nat)
    ensures At(k, off) == Address(Phys(k), off)
  {
  }

  // Every written stretch from `a` on is a prefix of `data`, whatever `data` goes on to.
  ghost predicate StartsAsWritten(data: seq<byte>, h: History, a: Addr) {
    && (data != [] ==> data[0] == ByteAt(h, a.k, a.off))
    && forall m: nat :: m <= |data| && Present(h, a, m) ==> data[..m] == BytesAt(h, a, m)
  }

  lemma SettledAvoidsCache(idx: nat, cbo: nat, h: History, lo: nat, k: nat, off: nat, len: nat)
    requires lo <= k < lo + N && |h| <= lo + N && Wf(h) && Buffered(idx, cbo, h)
    requires idx == 0 || (k < |h| && off + len <= |h[k]|)
    ensures len == 0 || idx == 0 || At(k, off) + len <= cbo + idx || cbo + idx <= At(k, off)
  {
    if len > 0 && idx > 0 {
      WrittenAvoidsTail(h, lo, k, off, len);
    }
  }

  lemma ReadStarts(h: History, a: Addr, data: seq<byte>)
    requires a.off + |data| <= S && forall i :: 0 <= i < |data| ==> data[i] == ByteAt(h, a.k, a.off + i)
    ensures StartsAsWritten(data, h, a)
  {
    if data != [] {
      assert data[0] == ByteAt(h, a.k, a.off + 0);
    }
  }

  // A read over a section boundary.
  lemma JoinsReads(h: History, a: Addr, data0: seq<byte>, data1: seq<byte>)
    requires HEAD <= a.off < S && |data0| == S - a.off && data1 != []
    requires a.k < |h| && |h[a.k]| == S ==> data0 == h[a.k][a.off..S]
    requires a.k + 1 < |h| && HEAD + |data1| <= |h[a.k + 1]| ==> data1 == h[a.k + 1][HEAD..HEAD + |data1|]
    ensures Present(h, a, |data0| + |data1|) ==> data0 + data1 == BytesAt(h, a, |data0| + |data1|)
  {
  }

  lemma JoinedStarts(h: History, a: Addr, data0: seq<byte>, data1: seq<byte>)
    requires HEAD <= a.off < S && |data0| == S - a.off && data1 != []
    requires forall i :: 0 <= i < |data0| ==> data0[i] == ByteAt(h, a.k, a.off + i)
    requires a.k + 1 < |h| ==> forall i :: 0 <= i < |data1| ==> data1[i] == ByteAt(h, a.k + 1, HEAD + i)
    ensures StartsAsWritten(data0 + data1, h, a)
  {
    ReadStarts(h, a, data0);
    var data := data0 + data1;
    forall m: nat | m <= |data| && Present(h, a, m)
      ensures data[..m] == BytesAt(h, a, m)
    {
      if a.off + m <= S {
        assert data[..m] == data0[..m];
      } else {
        assert data0 == h[a.k][a.off..S];
        assert data1[..m - |data0|] == h[a.k + 1][HEAD..m - |data0| + HEAD];
        assert data[..m] == data0 + data1[..m - |data0|];
      }
    }
  }

  // The bytes [from, to) have been erased, and nothing else has changed.
  ghost predicate Erases(mem0: seq<byte>, programmed0: seq<bool>, mem: seq<byte>, programmed: seq<bool>, from: nat, to: nat) {
    && |mem| == |mem0| && |programmed| == |programmed0| == |mem0|
    && forall a :: 0 <= a < |mem| ==>
         && mem[a] == (if from <= a < to then ERASED else mem0[a])
         && programmed[a] == (programmed0[a] && !(from <= a < to))
  }

  lemma ErasesNothing(mem: seq<byte>, programmed: seq<bool>, from: nat)
    requires |mem| == |programmed|
    ensures Erases(mem, programmed, mem, programmed, from, from)
  {
  }

  lemma ErasesOn(mem0: seq<byte>, programmed0: seq<bool>, mem1: seq<byte>, programmed1: seq<bool>,
                 mem: seq<byte>, programmed: seq<bool>, from: nat, mid: nat)
    requires Erases(mem0, programmed0, mem1, programmed1, from, mid) && from <= mid
    requires |mem| == |mem1| && |programmed| == |mem| && forall a :: 0 <= a < |mem| ==>
               mem[a] == if mid <= a < mid + SECTOR then ERASED else mem1[a]
    requires forall a :: 0 <= a < |mem| ==> programmed[a] == (programmed1[a] && !(mid <= a < mid + SECTOR))
    ensures Erases(mem0, programmed0, mem, programmed, from, mid + SECTOR)
  {
  }

  lemma NextSector(slot: nat, offset: nat)
    requires offset < S && offset % SECTOR == 0
    ensures Address(slot, offset) % SECTOR == 0 && offset + SECTOR <= S && Address(slot, offset) == SlotBase(slot) + offset
    ensures (offset + SECTOR) % SECTOR == 0
  {
    var m, n := S / SECTOR, offset / SECTOR;
    assert S == m * SECTOR && offset == n * SECTOR;
  }

  class LogStore {
    const cache: WriteCache
    var free_bytes: int
    var tail_available_offset: nat
    var head_section: nat
    var tail_section: nat
    var tail_count: u16
    ghost var h: History  // everything written since the flash was new
    ghost var lo: nat     // the age of the head section

    constructor (flash: Flash)
      ensures fresh(cache) && fresh(cache.buf) && cache.nvm == flash && cache.buf.Length == PAGE && cache.idx == 0
    {
      cache := new WriteCache(flash);
      free_bytes, tail_available_offset, head_section, tail_section, tail_count := 0, 0, 0, 0, 0;
      h, lo := [], 0;
    }

    ghost predicate Linked()
      reads this
    {
      && Wf(h)
      && lo <= |h| <= lo + N
      && (h == [] ==> lo == 0) && (h != [] ==> lo < |h|)
      && head_section == Phys(lo)
      && tail_section == (if h == [] then N - 1 else Phys(|h| - 1))
      && tail_available_offset == TailOffset(h)
      && tail_count == |h| % 0x1_0000
    }

    // The medium holds the history; nothing yet about the fields that a mount recovers.
    ghost predicate Readable()
      reads this`h, this`lo, cache, cache.buf, cache.nvm
    {
      && cache.Valid()
      && Wf(h) && lo <= |h| <= lo + N
      && Buffered(cache.idx, cache.cbo, h)
      && Holds(cache.Now(), h, lo)
    }

    ghost predicate Stored()
      reads this, cache, cache.buf, cache.nvm
    {
      Readable() && Linked()
    }

    ghost predicate Valid()
      reads this, cache, cache.buf, cache.nvm
    {
      Stored() && free_bytes == Free(h, lo)
    }

    lemma IsWf()
      requires Valid()
      ensures Wf(h) && lo <= |h| <= lo + N && (h == [] ==> lo == 0) && (h != [] ==> lo < |h|)
      ensures tail_available_offset == TailOffset(h) && head_section == Phys(lo)
    {
    }

    // More free bytes than a section holds: there is an erased section.
    lemma Spare()
      requires Valid() && free_bytes > C
      ensures |h| < lo + N
    {
      assert Linked();
      SpareSection(h, lo);
    }

    // Unless two sections at least are in use, more than one section is free.
    lemma InUse()
      requires Valid()
      ensures head_section < N
      ensures lo + 1 < |h| || free_bytes >= 2 * C
      ensures head_section == tail_section ==> free_bytes >= 2 * C
    {
      assert Linked();
      if head_section == tail_section {
        assert h != [];
        PhysInjective(lo, |h| - 1);
      }
      if lo + 1 >= |h| {
        FreeWhenFewInUse(h, lo);
      }
    }

    // The bytes go to the cache at the address that follows the last ones.
    method Place(data: seq<byte>)
      requires cache.Valid() && Holds(cache.Now(), h, lo) && Buffered(cache.idx, cache.cbo, h)
      requires lo < |h| <= lo + N && tail_section == Phys(|h| - 1)
      requires tail_available_offset == TailOffset(h) && |data| + tail_available_offset <= S
      modifies cache, cache.buf, cache.nvm
      ensures cache.Valid() && LaidAtTail(old(cache.Now()), cache.Now(), h, data)
      ensures Buffered(cache.idx, cache.cbo, Extend(h, data))
    {
      hide Holds, Laid, LaidAtTail, Wf, SlotBase, Phys, Address, At, Buffered, Untouched, Extend, TailOffset;
      hide WriteCache.View, WriteCache.Consistent, WriteCache.Follows;
      ghost var m, idx, cbo := cache.Now(), cache.idx, cache.cbo;
      PlaceStarts(|data|);
      var a := Address(tail_section, tail_available_offset);
      cache.Program(a, data);
      PlaceEnds(m, idx, cbo, data, a);
    }

    // The address that follows the last bytes, and that nothing has been programmed from there on
    lemma PlaceStarts(len: nat)
      requires cache.Valid() && Holds(cache.Now(), h, lo) && Buffered(cache.idx, cache.cbo, h)
      requires lo < |h| <= lo + N && tail_section == Phys(|h| - 1)
      requires tail_available_offset == TailOffset(h) && len + tail_available_offset <= S
      ensures var a := Address(tail_section, tail_available_offset);
              && a == At(|h| - 1, TailOffset(h)) && cache.Follows(a) && a + len <= |cache.nvm.mem|
              && Untouched(cache.nvm.programmed, a - cache.idx, a + len)
    {
      hide Holds, Laid, Wf, SlotBase, Phys, Address, At, Buffered, Untouched, WriteCache.View;
      NextAddress(cache.idx, cache.cbo, h, len);
      BufferedIs(cache.idx, cache.cbo, h);
      TailUntouched(cache.Now(), h, lo, len);
      HoldsAll(cache.Now(), h, lo);
      AtIs(|h| - 1, TailOffset(h));
    }

    lemma PlaceEnds(m: Medium, idx: nat, cbo: nat, data: seq<byte>, a: nat)
      requires cache.Valid() && h != [] && TailOffset(h) + |data| <= S && Buffered(idx, cbo, h)
      requires a == At(|h| - 1, TailOffset(h)) && cache.Follows(a + |data|)
      requires Laid(m, cache.Now(), a, data, a - idx, a + |data| - cache.idx)
      ensures LaidAtTail(m, cache.Now(), h, data) && Buffered(cache.idx, cache.cbo, Extend(h, data))
    {
      hide Laid, At, Buffered, WriteCache.View, WriteCache.Consistent, LaidAtTail;
      NextAddress(idx, cbo, h, |data|);
      BufferedIs(idx, cbo, h);
      LaidIs(m, cache.Now(), h, data);
      BufferedExtends(cache.idx, cache.cbo, h, data);
    }

    // The tail section takes `data`.
    method ProgramTail(data: seq<byte>)
      requires Stored() && h != [] && |data| + tail_available_offset <= S
      modifies this`tail_available_offset, this`h, cache, cache.buf, cache.nvm
      ensures Stored() && h == Extend(old(h), data)
    {
      hide Holds, LaidAtTail, Wf, Phys, Buffered, Extend, TailOffset, WriteCache.Consistent, WriteCache.View;
      ghost var m := cache.Now();
      ExtendShape(h, data);
      Place(data);
      HoldsExtends(m, cache.Now(), h, lo, data);
      tail_available_offset := tail_available_offset + |data|;
      h := Extend(h, data);
    }

    method SectionHeadWrite(head: seq<byte>)
      requires cache.Valid() && Holds(cache.Now(), h, lo) && Buffered(cache.idx, cache.cbo, h)
      requires |head| == HEAD && lo <= |h| < lo + N && TailOffset(h) == S && tail_section == Phys(|h|)
      modifies this`tail_available_offset, this`h, cache, cache.buf, cache.nvm
      ensures cache.Valid() && h == old(h) + [head] && tail_available_offset == HEAD
      ensures Holds(cache.Now(), h, lo) && Buffered(cache.idx, cache.cbo, h)
    {
      hide Holds, Buffered, LaidAtTail, Phys, WriteCache.View, WriteCache.Consistent;
      HoldsOpens(cache.Now(), h, lo);
      BufferedOpens(cache.idx, cache.cbo, h);
      ghost var m, wider := cache.Now(), h + [[]];
      assert wider[|h|] + head == head;
      assert Extend(wider, head) == h + [head];
      tail_available_offset := 0;
      h := wider;
      Place(head);
      HoldsExtends(m, cache.Now(), h, lo, head);
      tail_available_offset := HEAD;
      h := Extend(h, head);
    }

    method OpenSection(nodeOffset: u16)
      requires Stored() && tail_available_offset == S && |h| < lo + N
      modifies this`tail_available_offset, this`tail_section, this`tail_count, this`h, cache, cache.buf, cache.nvm
      ensures Stored() && h == Open(old(h), nodeOffset)
    {
      hide Holds, Buffered, HeadBytes, WriteCache.Consistent, WriteCache.View, Wf;
      OpensWf(h, nodeOffset);
      NextSlot(h);
      CountOn(|h|);
      hide Phys, Next, Open, TailOffset;
      tail_section := Next(tail_section);
      tail_count := (tail_count + 1) % 0x1_0000;
      SectionHeadWrite(HeadBytes(tail_count, nodeOffset));
    }

    method NodeWrite(buf: seq<byte>, start: bool, subsequent: nat) returns (section: nat, offset: nat)
      requires Valid() && |buf| <= free_bytes
      modifies this`free_bytes, this`tail_available_offset, this`tail_section, this`tail_count, this`h, cache, cache.buf, cache.nvm
      ensures Valid() && h == Append(old(h), buf, start, subsequent) && free_bytes == old(free_bytes) - |buf|
      ensures var a := Cursor(old(h)); section == Phys(a.k) && offset == a.off
    {
      free_bytes := free_bytes - |buf|;
      if tail_available_offset == S {
        offset := HEAD;
        section := Next(tail_section);
      } else {
        offset := tail_available_offset;
        section := tail_section;
      }
      assert section == Phys(Cursor(h).k) && offset == Cursor(h).off;
      hide Append, Cursor, Holds, Buffered, Wf, Phys, Free;
      var rest, kind := buf, start;
      while rest != []
        invariant free_bytes == old(free_bytes) - |buf|
        invariant Stored() && Append(h, rest, kind, subsequent) == Append(old(h), buf, start, subsequent)
        invariant free_bytes == Free(h, lo) - |rest| >= 0
        decreases |rest|
      {
        rest := Piece(rest, kind, subsequent);
        kind := false;
      }
      AppendNothing(h, kind, subsequent);
    }

    // One turn of node_write's loop; returns what is left to write.
    method Piece(buf: seq<byte>, start: bool, subsequent: nat) returns (rest: seq<byte>)
      requires Stored() && buf != [] && |buf| <= Free(h, lo)
      modifies this`tail_available_offset, this`tail_section, this`tail_count, this`h, cache, cache.buf, cache.nvm
      ensures Stored() && |rest| < |buf| && Free(h, lo) - |rest| == old(Free(h, lo)) - |buf|
      ensures Append(h, rest, false, subsequent) == Append(old(h), buf, start, subsequent)
    {
      hide Append, Holds, Buffered, Wf, HeadBytes, Phys, Free, LogStore.Readable;
      AppendUnfolds(h, buf, start, subsequent);
      EnterSection(buf, start, subsequent);
      var n := if |buf| + tail_available_offset > S then S - tail_available_offset else |buf|;
      FreeAfterExtend(h, lo, buf[..n]);
      ProgramTail(buf[..n]);
      rest := buf[n..];
    }

    // A full tail section is followed by a new one.
    method EnterSection(buf: seq<byte>, start: bool, subsequent: nat)
      requires Stored() && buf != [] && |buf| <= Free(h, lo)
      modifies this`tail_available_offset, this`tail_section, this`tail_count, this`h, cache, cache.buf, cache.nvm
      ensures Stored() && h == Opened(old(h), buf, start, subsequent) && Free(h, lo) == old(Free(h, lo))
    {
      hide Append, Holds, Buffered, HeadBytes, Phys, Free;
      if tail_available_offset == S {
        FreeNeedsSection(h, lo);
        FreeAfterOpen(h, lo, NodeOffset(start, |buf| + subsequent));
        OpenSection(NodeOffset(start, |buf| + subsequent));
      }
    }

    // The unfinished page is programmed with its rest left erased.
    method FlushTail(padding: nat)
      requires Stored() && 0 < padding == PadLength(h)
      modifies this`tail_available_offset, this`h, cache, cache.buf, cache.nvm
      ensures Stored() && h == Padded(old(h)) && cache.idx == 0 && cache.View() == cache.nvm.mem
    {
      hide Wf, Holds, Phys, At, Touched, PadLength, Buffered, Padded, Extend, WriteCache.View;
      ghost var m := cache.Now();
      PadEndsPage(h, cache.idx, cache.cbo);
      tail_available_offset := (tail_available_offset + PAGE) / PAGE * PAGE;
      cache.WriteThrough();
      HoldsPads(m, cache.Now(), h, lo, padding);
      h := Padded(h);
      BufferedNothing(cache.cbo, h);
    }

    // At the end of a page there is nothing to program.
    method FlushNothing()
      requires Stored() && TailOffset(h) % PAGE == 0
      modifies cache, cache.buf, cache.nvm
      ensures Stored() && cache.idx == 0 && cache.View() == cache.nvm.mem
    {
      hide Wf, Holds, Phys, At, Buffered, WriteCache.View;
      ghost var m := cache.Now();
      BufferedIs(cache.idx, cache.cbo, h);
      cache.WriteThrough();
      assert cache.nvm.programmed == m.programmed;
      BufferedNothing(cache.cbo, h);
    }

    method DataWriteThrough() returns (padding: nat)
      requires Valid()
      modifies this`free_bytes, this`tail_available_offset, this`h, cache, cache.buf, cache.nvm
      ensures Valid() && h == Padded(old(h)) && padding == PadLength(old(h))
      ensures free_bytes == old(free_bytes) - padding
      ensures cache.idx == 0 && cache.View() == cache.nvm.mem
    {
      hide Holds, Buffered, Phys, WriteCache.View, WriteCache.Consistent, Padded, Free;
      FreeAfterPadding(h, lo);
      padding := 0;
      if tail_available_offset % PAGE != 0 {
        padding := PAGE - tail_available_offset % PAGE;
        free_bytes := free_bytes - padding;
        FlushTail(padding);
      } else {
        FlushNothing();
      }
    }

    // tinyfs_section_erase
    method SectionErase(slot: nat)
      requires cache.Valid() && cache.idx == 0 && slot < N && SlotBase(N) <= |cache.nvm.mem|
      modifies cache.nvm
      ensures cache.Valid()
      ensures Erases(old(cache.nvm.mem), old(cache.nvm.programmed), cache.nvm.mem, cache.nvm.programmed,
                     SlotBase(slot), SlotBase(slot) + S)
    {
      ghost var mem0, programmed0, base := cache.nvm.mem, cache.nvm.programmed, SlotBase(slot);
      SlotBasesApart(slot, N);
      ErasesNothing(mem0, programmed0, base);
      hide Erases, SlotBase, Address;
      var offset := 0;
      while offset < S
        invariant 0 <= offset <= S && offset % SECTOR == 0 && cache.Valid() && |cache.nvm.mem| == |mem0|
        invariant Erases(mem0, programmed0, cache.nvm.mem, cache.nvm.programmed, base, base + offset)
      {
        ghost var mem1, programmed1 := cache.nvm.mem, cache.nvm.programmed;
        NextSector(slot, offset);
        cache.nvm.SectorErase(Address(slot, offset));
        ErasesOn(mem0, programmed0, mem1, programmed1, cache.nvm.mem, cache.nvm.programmed, base, base + offset);
        offset := offset + SECTOR;
      }
    }

    // The oldest section is erased and its bytes become free.
    method Reclaim()
      requires Valid() && cache.idx == 0 && lo + 1 < |h|
      modifies this`free_bytes, this`head_section, this`lo, cache.nvm
      ensures Valid() && lo == old(lo) + 1 && free_bytes == old(free_bytes) + C && cache.idx == 0
    {
      hide Buffered, Wf, Free;
      ghost var m := cache.Now();
      SectionErase(head_section);
      assert cache.View() == cache.nvm.mem;
      HoldsReclaims(m, cache.Now(), h, lo);
      FreeAfterReclaim(h, lo);
      free_bytes := free_bytes + C;
      head_section := Next(head_section);
      lo := lo + 1;
    }

    // A read inside section `k`.
    method ReadSection(section: nat, offset: nat, length: nat, ghost k: nat) returns (data: seq<byte>)
      requires Readable() && lo <= k < lo + N && section == Phys(k) && offset + length <= S
      ensures |data| == length
      ensures k < |h| && offset + length <= |h[k]| ==> data == h[k][offset..offset + length]
      ensures cache.idx == 0 ==> forall i :: 0 <= i < length ==> data[i] == ByteAt(h, k, offset + i)
    {
      hide Holds, Wf, Phys, SlotBase, Buffered, At, Address, WriteCache.Consistent, WriteCache.View;
      ghost var whole := SectionBytes(cache.Now(), h, lo, k, offset, length);
      ghost var settled := cache.idx == 0 || (k < |h| && offset + length <= |h[k]|);
      if settled {
        SettledAvoidsCache(cache.idx, cache.cbo, h, lo, k, offset, length);
      }
      AtIs(k, offset);
      data := cache.Read(Address(section, offset), length);
      assert settled ==> data == whole;
    }

    // nvm_read_node: a read that may run on into the next section of the ring.
    method NvmReadNode(section: nat, offset: nat, length: nat, ghost k: nat) returns (data: seq<byte>)
      requires Readable() && lo <= k < lo + N && section == Phys(k)
      requires HEAD <= offset < S && offset + length <= S + C
      ensures |data| == length
      ensures Present(h, Addr(k, offset), length) ==> data == BytesAt(h, Addr(k, offset), length)
      ensures cache.idx == 0 ==> StartsAsWritten(data, h, Addr(k, offset))
    {
      hide Holds, Wf, Buffered, StartsAsWritten, WriteCache.Consistent, WriteCache.View, WriteCache.Valid;
      NextTurn(k, lo);
      hide Phys, Next;
      if offset + length <= S {
        data := ReadSection(section, offset, length, k);
        if cache.idx == 0 {
          ReadStarts(h, Addr(k, offset), data);
        }
      } else {
        var length0 := S - offset;
        var data0 := ReadSection(section, offset, length0, k);
        ghost var k1 := if k + 1 < lo + N then k + 1 else lo;
        var data1 := ReadSection(Next(section), HEAD, length - length0, k1);
        data := data0 + data1;
        JoinsReads(h, Addr(k, offset), data0, data1);
        if cache.idx == 0 {
          JoinedStarts(h, Addr(k, offset), data0, data1);
        }
      }
    }
  }
}
