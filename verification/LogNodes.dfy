// Writing and reading whole nodes (dev/module/tinyfs/tinyfs.c:526-534, 869-925, 1215-1220).
module LogNodes {
  import opened Nor
  import opened Ring
  import opened Layout
  import opened LogWriter
  import opened Codec

  const RECORD_DATA_COPY_BUF_SIZE := 64

  // Metadata, data and check written one after the other are the node written at once.
  lemma PiecesMakeNode(h: History, h1: History, h2: History, e: Entry)
    requires Wf(h) && e.RecordAdd?
    requires h1 == Append(h, Metadata(e), true, |e.data| + 2) && h2 == Append(h1, Body(e), false, 0)
    ensures h2 == Append(h, Bytes(e), true, 0)
  {
    Fused(h, h1, h2, Metadata(e), Body(e), true, |e.data| + 2, 0);
  }

  lemma DataThenCheck(h: History, h1: History, h2: History, e: Entry)
    requires Wf(h) && e.RecordAdd?
    requires h1 == Append(h, e.data, false, 2) && h2 == Append(h1, Le16(Check(e.data)), false, 0)
    ensures h2 == Append(h, Body(e), false, 0)
  {
    Fused(h, h1, h2, e.data, Le16(Check(e.data)), false, 2, 0);
  }

  lemma Fused(h: History, h1: History, h2: History, a: seq<byte>, b: seq<byte>, start: bool, n: nat, subsequent: nat)
    requires Wf(h) && n == |b| + subsequent && (a == [] ==> !start)
    requires h1 == Append(h, a, start, n) && h2 == Append(h1, b, false, subsequent)
    ensures h2 == Append(h, a + b, start, subsequent)
  {
    hide Append;
    if a == [] {
      AppendNothing(h, start, n);
      assert a + b == b;
    } else {
      AppendFuses(h, a, b, start, subsequent);
    }
  }

  method DirAddWrite(log: LogStore, name: u16, id: u16, parent: u16) returns (section: nat, offset: nat)
    requires log.Valid() && 9 <= log.free_bytes
    modifies log`free_bytes, log`tail_available_offset, log`tail_section, log`tail_count, log`h
    modifies log.cache, log.cache.buf, log.cache.nvm
    ensures log.Valid() && log.h == Append(old(log.h), Bytes(DirAdd(name, parent, id)), true, 0)
    ensures log.free_bytes == old(log.free_bytes) - 9
    ensures var a := Cursor(old(log.h)); section == Phys(a.k) && offset == a.off
  {
    hide Append, LogStore.Valid;
    var node := Metadata(DirAdd(name, parent, id));
    assert Bytes(DirAdd(name, parent, id)) == node;
    section, offset := log.NodeWrite(node, true, 0);
  }

  method RecordRemoveWrite(log: LogStore, name: u16, parent: u16)
    requires log.Valid() && 7 <= log.free_bytes
    modifies log`free_bytes, log`tail_available_offset, log`tail_section, log`tail_count, log`h
    modifies log.cache, log.cache.buf, log.cache.nvm
    ensures log.Valid() && log.h == Append(old(log.h), Bytes(RecordRemove(name, parent)), true, 0)
    ensures log.free_bytes == old(log.free_bytes) - 7
  {
    hide Append, LogStore.Valid;
    var node := Metadata(RecordRemove(name, parent));
    assert Bytes(RecordRemove(name, parent)) == node;
    var _, _ := log.NodeWrite(node, true, 0);
  }

  method DirRemoveWrite(log: LogStore, id: u16)
    requires log.Valid() && 5 <= log.free_bytes
    modifies log`free_bytes, log`tail_available_offset, log`tail_section, log`tail_count, log`h
    modifies log.cache, log.cache.buf, log.cache.nvm
    ensures log.Valid() && log.h == Append(old(log.h), Bytes(DirRemove(id)), true, 0)
    ensures log.free_bytes == old(log.free_bytes) - 5
  {
    hide Append, LogStore.Valid;
    var node := Metadata(DirRemove(id));
    assert Bytes(DirRemove(id)) == node;
    var _, _ := log.NodeWrite(node, true, 0);
  }

  method RecordAddWrite(log: LogStore, name: u16, parent: u16, length: u16, ghost e: Entry) returns (section: nat, offset: nat)
    requires log.Valid() && e.RecordAdd? && e.name == name && e.parent == parent && |e.data| == length
    requires 9 <= log.free_bytes
    modifies log`free_bytes, log`tail_available_offset, log`tail_section, log`tail_count, log`h
    modifies log.cache, log.cache.buf, log.cache.nvm
    ensures log.Valid() && log.h == Append(old(log.h), Metadata(e), true, length + 2)
    ensures log.free_bytes == old(log.free_bytes) - 9
    ensures var a := Cursor(old(log.h)); section == Phys(a.k) && offset == a.off
  {
    hide Append, LogStore.Valid;
    var fields := RecordFields(name, parent, length);
    var node := fields + Le16(Check(fields));
    section, offset := log.NodeWrite(node, true, length + 2);
  }

  method RecordDataWrite(log: LogStore, data: Payload, ghost e: Entry)
    requires log.Valid() && e.RecordAdd? && e.data == data && |data| + 2 <= log.free_bytes
    modifies log`free_bytes, log`tail_available_offset, log`tail_section, log`tail_count, log`h
    modifies log.cache, log.cache.buf, log.cache.nvm
    ensures log.Valid() && log.h == Append(old(log.h), Body(e), false, 0)
    ensures log.free_bytes == old(log.free_bytes) - |data| - 2
  {
    hide Append, LogStore.Valid, Check, Le16;
    ghost var h0 := log.h;
    assert Wf(h0) by {
      log.IsWf();
    }
    var _, _ := log.NodeWrite(data, false, 2);
    ghost var h1 := log.h;
    var _, _ := log.NodeWrite(Le16(Check(data)), false, 0);
    DataThenCheck(h0, h1, log.h, e);
  }

  // The rest of any stretch of bytes, after its first `length`, is found where this points.
  ghost predicate Continues(a: Addr, length: nat, b: Addr) {
    forall h, total: nat {:trigger Present(h, a, total)} | Wf(h) && Present(h, a, total) && length < total <= C ::
      Present(h, b, total - length) && BytesAt(h, b, total - length) == BytesAt(h, a, total)[length..]
  }

  lemma AdvanceContinues(a: Addr, length: nat)
    requires HEAD <= a.off < S && length <= C
    ensures Continues(a, length, Advance(a, length))
  {
    hide BytesAt, Present, Wf, Advance;
    forall h, total: nat | Wf(h) && Present(h, a, total) && length < total <= C
      ensures Present(h, Advance(a, length), total - length)
      ensures BytesAt(h, Advance(a, length), total - length) == BytesAt(h, a, total)[length..]
    {
      SliceOf(h, a, total, length, total - length);
      AdvanceNothing(a);
    }
  }

  lemma AdvanceNothing(a: Addr)
    requires a.off < S
    ensures Advance(a, 0) == a
  {
  }

  method SectionOffsetCalc(section: nat, offset: nat, length: nat, ghost k: nat) returns (section': nat, offset': nat, ghost k': nat)
    requires section == Phys(k) && HEAD <= offset < S && length <= C
    ensures section' == Phys(k') && HEAD <= offset' < S && Addr(k', offset') == Advance(Addr(k, offset), length)
    ensures Continues(Addr(k, offset), length, Addr(k', offset'))
  {
    AdvanceContinues(Addr(k, offset), length);
    hide Continues;
    if offset + length >= S {
      section', offset', k' := Next(section), offset + length - S + HEAD, k + 1;
    } else {
      section', offset', k' := section, offset + length, k;
    }
  }

  lemma NodePlace(h: History, it: Item)
    requires NodeAt(h, it)
    ensures HEAD <= it.at.off < S && it.at.k < |h| && Total(it.e) <= C
  {
  }

  lemma BodyInBytes(e: Entry, from: nat, n: nat)
    requires e.RecordAdd? && from + n <= |Body(e)|
    ensures Bytes(e)[METADATA_MAX + from..METADATA_MAX + from + n] == Body(e)[from..from + n]
  {
    hide Metadata, Body;
    var m, b := Metadata(e), Body(e);
    assert |m| == METADATA_MAX;
    assert (m + b)[METADATA_MAX + from..METADATA_MAX + from + n] == b[from..from + n];
  }

  // The bytes [from, from + n) of a node are read where section_offset_calc points.
  method ReadSlice(log: LogStore, section: nat, offset: nat, ghost it: Item, ghost from: nat, n: nat) returns (data: seq<byte>)
    requires log.Valid() && NodeAt(log.h, it) && log.lo <= it.at.k && from < Total(it.e) && from + n <= Total(it.e)
    requires var a := Advance(it.at, from); section == Phys(a.k) && offset == a.off
    ensures data == Bytes(it.e)[from..from + n]
  {
    log.IsWf();
    NodePlace(log.h, it);
    SliceOf(log.h, it.at, Total(it.e), from, n);
    ghost var a := Advance(it.at, from);
    AdvanceTwice(it.at, from, 0);
    assert from == 0 ==> a == it.at;
    assert a.k < |log.h|;
    hide Bytes, Wf;
    data := log.NvmReadNode(section, offset, n, a.k);
  }

  // One turn of record_data_copy's loop; `done` bytes of the node's body have been copied since `h0`.
  method CopyChunk(log: LogStore, section: nat, offset: nat, n: nat, rest: nat,
                   ghost it: Item, ghost h0: History, ghost done: nat) returns (section': nat, offset': nat)
    requires log.Valid() && NodeAt(log.h, it) && log.lo <= it.at.k && it.e.RecordAdd? && n <= log.free_bytes
    requires 0 < n <= RECORD_DATA_COPY_BUF_SIZE && done + n + rest == |it.e.data| + 2
    requires Wf(h0) && log.h == Append(h0, Body(it.e)[..done], false, n + rest)
    requires var a := Advance(it.at, METADATA_MAX + done); section == Phys(a.k) && offset == a.off
    modifies log`free_bytes, log`tail_available_offset, log`tail_section, log`tail_count, log`h
    modifies log.cache, log.cache.buf, log.cache.nvm
    ensures log.Valid() && NodeAt(log.h, it) && log.free_bytes == old(log.free_bytes) - n
    ensures log.h == Append(h0, Body(it.e)[..done + n], false, rest)
    ensures var a := Advance(it.at, METADATA_MAX + done + n); section' == Phys(a.k) && offset' == a.off
  {
    hide Append, Body, Bytes, Metadata, LogStore.Valid, NodeAt;
    ghost var b, h1, from := Body(it.e), log.h, METADATA_MAX + done;
    log.IsWf();
    NodePlace(h1, it);
    AdvanceTwice(it.at, from, n);
    BodyInBytes(it.e, done, n);
    var buf := ReadSlice(log, section, offset, it, from, n);
    ghost var k';
    section', offset', k' := SectionOffsetCalc(section, offset, n, Advance(it.at, from).k);
    var _, _ := log.NodeWrite(buf, false, rest);
    log.IsWf();
    AppendGrows(h1, buf, false, rest);
    NodeStays(h1, log.h, it);
    assert b[..done] + buf == b[..done + n];
    Fused(h0, h1, log.h, b[..done], buf, false, n + rest, rest);
  }

  // record_data_copy: the record's data and check are moved, 64 bytes at a time, to the tail.
  method RecordDataCopy(log: LogStore, section: nat, offset: nat, length: nat, ghost it: Item)
    requires log.Valid() && NodeAt(log.h, it) && log.lo <= it.at.k && it.e.RecordAdd?
    requires section == Phys(it.at.k) && offset == it.at.off && length == |it.e.data| + 2 <= log.free_bytes
    modifies log`free_bytes, log`tail_available_offset, log`tail_section, log`tail_count, log`h
    modifies log.cache, log.cache.buf, log.cache.nvm
    ensures log.Valid() && NodeAt(log.h, it) && log.h == Append(old(log.h), Body(it.e), false, 0)
    ensures log.free_bytes == old(log.free_bytes) - length
  {
    hide Append, LogStore.Valid, NodeAt, Body;
    ghost var h0, b, done := log.h, Body(it.e), 0;
    log.IsWf();
    NodePlace(h0, it);
    AppendNothing(h0, false, length);
    assert b[..0] == [];
    var bufSize := if length > RECORD_DATA_COPY_BUF_SIZE then RECORD_DATA_COPY_BUF_SIZE else length;
    var sec, off, _ := SectionOffsetCalc(section, offset, METADATA_MAX, it.at.k);
    var left: nat := length;
    while left > 0
      invariant done + left == length && log.free_bytes == old(log.free_bytes) - done
      invariant log.Valid() && NodeAt(log.h, it)
      invariant log.h == Append(h0, b[..done], false, left)
      invariant var a := Advance(it.at, METADATA_MAX + done); sec == Phys(a.k) && off == a.off
    {
      var n := if left > bufSize then bufSize else left;
      left := left - n;
      sec, off := CopyChunk(log, sec, off, n, left, it, h0, done);
      done := done + n;
    }
    assert b[..done] == b;
  }

  // nvm_read_node where bytes are known to be
  method ReadPresent(log: LogStore, section: nat, offset: nat, n: nat, ghost a: Addr) returns (data: seq<byte>)
    requires log.Valid() && Present(log.h, a, n) && log.lo <= a.k && section == Phys(a.k) && offset == a.off && n <= C
    ensures data == BytesAt(log.h, a, n)
  {
    log.IsWf();
    assert Addr(a.k, a.off) == a;
    hide BytesAt, Wf;
    data := log.NvmReadNode(section, offset, n, a.k);
  }

  // node_data_read
  method NodeDataRead(log: LogStore, section: nat, offset: nat, length: nat, ghost it: Item) returns (data: seq<byte>, ok: bool)
    requires log.Valid() && NodeAt(log.h, it) && log.lo <= it.at.k && it.e.RecordAdd? && length == |it.e.data|
    requires section == Phys(it.at.k) && offset == it.at.off
    ensures ok && data == it.e.data
  {
    hide LogStore.Valid, NodeAt, Body, Check, Bytes, Present, BytesAt, Wf, Advance, Continues, Phys;
    log.IsWf();
    NodePlace(log.h, it);
    RecordReads(log.h, it);
    assert Addr(it.at.k, it.at.off) == it.at;
    ghost var d := Advance(it.at, METADATA_MAX);
    ghost var c := Advance(d, length);
    AdvanceOn(it.at, METADATA_MAX);
    AdvanceOn(d, length);
    var sec, off, k := SectionOffsetCalc(section, offset, METADATA_MAX, it.at.k);
    data := ReadPresent(log, sec, off, length, d);
    sec, off, k := SectionOffsetCalc(sec, off, length, k);
    var crc := ReadPresent(log, sec, off, 2, c);
    ok := U16(crc, 0) == Check(data);
  }

  lemma AdvanceOn(a: Addr, n: nat)
    ensures a.k <= Advance(a, n).k
  {
  }
}
