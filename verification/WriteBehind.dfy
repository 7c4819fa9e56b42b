// The one-page write cache in front of the flash (dev/module/tinyfs/tinyfs_write_cache.c).
module WriteBehind {
  import opened Nor

  // No page that meets [from, to) has been programmed; `from` is the start of a page.
  ghost predicate Untouched(programmed: seq<bool>, from: int, to: int) {
    forall a :: 0 <= from <= a < |programmed| && a - a % PAGE < to ==> !programmed[a]
  }

  ghost predicate Touched(before: seq<bool>, after: seq<bool>, from: int, to: int) {
    && |after| == |before|
    && forall a :: 0 <= a < |before| ==> after[a] == (before[a] || from <= a < to)
  }

  // The flat memory and which of its bytes have been programmed.
  datatype Medium = Medium(view: seq<byte>, programmed: seq<bool>)

  // `data` was laid over the memory at `offset`, and the pages of [from, to) were programmed.
  ghost predicate Laid(m: Medium, m': Medium, offset: nat, data: seq<byte>, from: int, to: int) {
    Overlaid(m.view, m'.view, offset, data) && Touched(m.programmed, m'.programmed, from, to)
  }

  lemma LaidNothing(m: Medium, offset: nat, from: int)
    requires offset <= |m.view|
    ensures Laid(m, m, offset, [], from, from)
  {
  }

  lemma LaidTwice(m: Medium, m1: Medium, m2: Medium, offset: nat, data: seq<byte>, done: nat, n: nat, a: int, b: int, c: int)
    requires done + n <= |data| && a <= b <= c
    requires Laid(m, m1, offset, data[..done], a, b) && Laid(m1, m2, offset + done, data[done..done + n], b, c)
    ensures Laid(m, m2, offset, data[..done + n], a, c)
  {
    assert data[..done + n] == data[..done] + data[done..done + n];
  }

  // The page that is filled next has not been programmed.
  lemma PageUntouched(m: Medium, m': Medium, offset: nat, data: seq<byte>, from: int, page: int, to: int)
    requires 0 <= from <= page < to && page % PAGE == 0
    requires Untouched(m.programmed, from, to) && Laid(m, m', offset, data, from, page)
    ensures forall a :: page <= a < page + PAGE && a < |m'.programmed| ==> !m'.programmed[a]
    ensures |m'.view| == |m.view|
  {
    forall a | page <= a < page + PAGE && a < |m'.programmed|
      ensures !m'.programmed[a]
    {
      assert a - a % PAGE == page;
    }
  }

  lemma PageInside(start: nat, idx: nat, size: nat)
    requires start % PAGE == idx && start < size && size % SECTOR == 0
    ensures start / PAGE * PAGE == start - idx && start - idx + PAGE <= size
  {
    assert size % PAGE == 0 by {
      assert size == 16 * (size / SECTOR) * PAGE;
    }
  }

  lemma OffsetInPage(page: nat, x: nat)
    requires page % PAGE == 0 && page <= x < page + PAGE
    ensures x % PAGE == x - page
  {
  }

  class WriteCache {
    const nvm: Flash
    const buf: array<byte>
    var cbo: nat  // current_buf_offset: the page that the buffered bytes belong to
    var idx: nat  // how many bytes of that page are buffered

    // Statics are zero at power-up; the flash outlives the power cycle.
    constructor (flash: Flash)
      ensures nvm == flash && buf.Length == PAGE && idx == 0 && fresh(buf)
    {
      nvm := flash;
      buf := new byte[PAGE](_ => 0);
      cbo, idx := 0, 0;
    }

    ghost predicate Consistent()
      reads this, buf, nvm
    {
      && nvm.Valid()
      && buf.Length == PAGE
      && idx <= PAGE
      && (idx > 0 ==> cbo % PAGE == 0 && cbo + PAGE <= |nvm.mem|)
      && (idx > 0 ==> forall a :: cbo <= a < cbo + PAGE ==> !nvm.programmed[a])
    }

    // Between calls the buffer is never full.
    ghost predicate Valid()
      reads this, buf, nvm
    {
      Consistent() && idx < PAGE
    }

    // The flat memory that the flash and the buffered bytes stand for together.
    ghost function View(): (v: seq<byte>)
      requires Consistent()
      reads this, buf, nvm
      ensures |v| == |nvm.mem|
    {
      seq(|nvm.mem|, a requires 0 <= a < |nvm.mem| && (cbo <= a < cbo + idx ==> a - cbo < buf.Length)
        reads this, buf, nvm => if cbo <= a < cbo + idx then buf[a - cbo] else nvm.mem[a])
    }

    // True when the next programmed byte belongs at `offset`.
    ghost predicate Follows(offset: nat)
      reads this
    {
      offset % PAGE == idx && (idx > 0 ==> cbo == offset - idx)
    }

    method WriteThrough()
      requires Consistent()
      modifies this, buf, nvm
      ensures Valid() && idx == 0
      ensures View() == old(View()) == nvm.mem
      ensures Touched(old(nvm.programmed), nvm.programmed, old(cbo), old(if idx > 0 then cbo + PAGE else cbo))
    {
      if idx > 0 {
        forall k | idx <= k < PAGE {
          buf[k] := ERASED;
        }
        nvm.PageProgram(cbo, buf[..]);
        idx := 0;
      }
      assert nvm.mem == old(View());
    }

    // The copy into the buffer; `start` lies on the page that is being filled.
    method Put(start: nat, chunk: seq<byte>)
      requires Valid() && Follows(start)
      requires 0 < |chunk| <= PAGE - idx && start + |chunk| <= |nvm.mem|
      requires forall a :: start - idx <= a < start - idx + PAGE && a < |nvm.programmed| ==> !nvm.programmed[a]
      modifies this, buf
      ensures Consistent() && idx == old(idx) + |chunk| && cbo == start - old(idx)
      ensures Overlaid(old(View()), View(), start, chunk)
    {
      PageInside(start, idx, |nvm.mem|);
      cbo := start / PAGE * PAGE;
      assert cbo == start - idx;
      forall k | 0 <= k < |chunk| {
        buf[idx + k] := chunk[k];
      }
      idx := idx + |chunk|;
      ghost var v, w := old(View()), View();
      forall a | 0 <= a < |v|
        ensures w[a] == if start <= a < start + |chunk| then chunk[a - start] else v[a]
      {
        if start <= a < start + |chunk| {
          assert buf[old(idx) + (a - start)] == chunk[a - start];
        }
      }
    }

    lemma PageStart(offset: nat)
      requires Follows(offset)
      ensures 0 <= offset - idx && (offset - idx) % PAGE == 0
    {
    }

    ghost function Now(): Medium
      requires Consistent()
      reads this, buf, nvm
    {
      Medium(View(), nvm.programmed)
    }

    // One turn of the copy loop.
    method Fill(start: nat, chunk: seq<byte>)
      requires Valid() && Follows(start)
      requires 0 < |chunk| <= PAGE - idx && start + |chunk| <= |nvm.mem|
      requires forall a :: start - idx <= a < start - idx + PAGE && a < |nvm.programmed| ==> !nvm.programmed[a]
      modifies this, buf, nvm
      ensures Valid() && Follows(start + |chunk|)
      ensures Laid(old(Now()), Now(), start, chunk, start - old(idx), start + |chunk| - idx)
      ensures start - old(idx) <= start + |chunk| - idx
    {
      Put(start, chunk);
      if idx == PAGE {
        WriteThrough();
      }
    }

    // `done` bytes of `data` have been taken, starting from the medium `m`.
    ghost predicate Taken(m: Medium, offset: nat, data: seq<byte>, done: nat, from: int)
      requires done <= |data|
      reads this, buf, nvm
    {
      && Valid() && Follows(offset + done) && from <= offset + done - idx
      && Laid(m, Now(), offset, data[..done], from, offset + done - idx)
    }

    method Turn(ghost m: Medium, offset: nat, data: seq<byte>, done: nat, ghost from: nat) returns (n: nat)
      requires done < |data| && offset + |data| <= |m.view| && Taken(m, offset, data, done, from)
      requires Untouched(m.programmed, from, offset + |data|)
      modifies this, buf, nvm
      ensures 0 < n <= |data| - done && Taken(m, offset, data, done + n, from)
    {
      var start := offset + done;
      n := if |data| - done <= PAGE - idx then |data| - done else PAGE - idx;
      ghost var m1, page := Now(), start - idx;
      PageStart(start);
      PageUntouched(m, m1, offset, data[..done], from, page, offset + |data|);
      hide Laid, View, Consistent, Follows;
      Fill(start, data[done..done + n]);
      LaidTwice(m, m1, Now(), offset, data, done, n, from, page, start + n - idx);
    }

    // Every page that `data` fills is programmed, exactly once; a last partial page stays buffered.
    method Program(offset: nat, data: seq<byte>)
      requires Valid() && Follows(offset) && offset + |data| <= |nvm.mem|
      requires Untouched(nvm.programmed, offset - idx, offset + |data|)
      modifies this, buf, nvm
      ensures Valid() && Follows(offset + |data|)
      ensures Laid(old(Now()), Now(), offset, data, offset - old(idx), offset + |data| - idx)
    {
      ghost var m, from := Now(), offset - idx;
      PageStart(offset);
      LaidNothing(m, offset, from);
      var done := 0;
      while done < |data|
        invariant 0 <= done <= |data| && Taken(m, offset, data, done, from)
      {
        var n := Turn(m, offset, data, done, from);
        done := done + n;
      }
      assert data[..done] == data;
    }

    // A read that ends inside the buffered bytes, or avoids them, sees the flat memory; a read that
    // runs past their end is served from the flash alone.
    method Read(offset: nat, len: nat) returns (data: seq<byte>)
      requires Valid() && offset + len <= |nvm.mem|
      ensures data == if len == 0 || idx == 0 || offset + len <= cbo + idx || cbo + idx <= offset
                      then View()[offset..offset + len] else nvm.mem[offset..offset + len]
    {
      var direct := len;
      var from := 0;
      if cbo < offset + len <= cbo + idx {
        OffsetInPage(cbo, offset + len);
        if offset >= cbo {
          OffsetInPage(cbo, offset);
        }
        if offset < cbo {
          direct := len - (offset + len) % PAGE;
        } else {
          from := offset % PAGE;
          direct := 0;
        }
      }
      assert direct != len ==> cbo + from == offset + direct && direct < len;
      hide View;
      data := nvm.Read(offset, direct) + buf[from..from + len - direct];
      if direct == len {
        DirectRead(offset, len);
        assert data == nvm.mem[offset..offset + len];
      } else {
        JoinedRead(offset, len, direct, from);
      }
    }

    // A read that does not meet the buffered bytes
    lemma DirectRead(offset: nat, len: nat)
      requires Consistent() && offset + len <= |nvm.mem|
      ensures len == 0 || idx == 0 || offset + len <= cbo || cbo + idx <= offset ==>
                nvm.mem[offset..offset + len] == View()[offset..offset + len]
    {
      if len == 0 || idx == 0 || offset + len <= cbo || cbo + idx <= offset {
        var x, y := nvm.mem[offset..offset + len], View()[offset..offset + len];
        forall i | 0 <= i < len
          ensures x[i] == y[i]
        {
          assert View()[offset + i] == nvm.mem[offset + i];
        }
      }
    }

    // A read that ends in the buffered bytes
    lemma JoinedRead(offset: nat, len: nat, direct: nat, from: nat)
      requires Consistent() && offset + len <= |nvm.mem| && direct <= len && from + len - direct <= idx
      requires cbo + from == offset + direct && (direct > 0 ==> from == 0)
      ensures nvm.mem[offset..offset + direct] + buf[from..from + len - direct] == View()[offset..offset + len]
    {
      var x, y := nvm.mem[offset..offset + direct] + buf[from..from + len - direct], View()[offset..offset + len];
      forall i | 0 <= i < len
        ensures x[i] == y[i]
      {
        if i < direct {
          assert View()[offset + i] == nvm.mem[offset + i];
        } else {
          assert View()[offset + i] == buf[offset + i - cbo];
        }
      }
    }
  }
}
