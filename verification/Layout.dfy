// What a node write does to the history of a ring (dev/module/tinyfs/tinyfs.c:806-867), and what a
// reader finds afterwards (dev/module/tinyfs/tinyfs.c:283-296, 514-524).
module Layout {
  import opened Nor
  import opened Ring
  import Crc16

  function Le16(x: u16): (b: seq<byte>)
    ensures |b| == 2
  {
    [x % 0x100, x / 0x100]
  }

  // section_head_t: loop count, offset of the first node that starts in the section, check.
  function HeadBytes(loopCount: u16, nodeOffset: u16): (b: seq<byte>)
    ensures |b| == HEAD
  {
    var fields := Le16(loopCount) + Le16(nodeOffset);
    fields + Le16(Crc16.Ccitt(0x5555, fields))
  }

  // The six bytes of a section's header, each number least byte first
  lemma HeadLayout(loopCount: u16, nodeOffset: u16)
    ensures var b := HeadBytes(loopCount, nodeOffset);
            && (b[0] as int) + 0x100 * (b[1] as int) == loopCount && (b[2] as int) + 0x100 * (b[3] as int) == nodeOffset
            && (b[4] as int) + 0x100 * (b[5] as int) == Crc16.Ccitt(0x5555, b[..4])
  {
    hide Crc16.Ccitt;
    var b := HeadBytes(loopCount, nodeOffset);
    assert b[..4] == Le16(loopCount) + Le16(nodeOffset);
  }

  // A header says where the first node in its section starts, unless the node before it fills the section.
  lemma NodeOffsetTells(start: bool, rest: nat)
    ensures start ==> NodeOffset(start, rest) == 6
    ensures !start && rest < C ==> NodeOffset(start, rest) == 6 + rest
    ensures !start && rest >= C ==> NodeOffset(start, rest) == 0
  {
  }

  function TailOffset(h: History): nat { if h == [] then S else |h[|h| - 1]| }

  // `rest` bytes of the current node are still to be written when the section is opened.
  function NodeOffset(start: bool, rest: nat): u16 {
    if start then HEAD else if rest + HEAD >= S then 0 else rest + HEAD
  }

  function Open(h: History, nodeOffset: u16): (r: History)
    ensures Wf(h) && TailOffset(h) == S ==> Wf(r)
  {
    h + [HeadBytes((|h| + 1) % 0x1_0000, nodeOffset)]
  }

  function Opened(h: History, buf: seq<byte>, start: bool, subsequent: nat): (r: History)
    requires Wf(h) && buf != []
    ensures Wf(r) && r != [] && TailOffset(r) < S
    ensures TailOffset(h) < S ==> r == h
  {
    if TailOffset(h) == S then Open(h, NodeOffset(start, |buf| + subsequent)) else h
  }

  function Room(h: History, buf: seq<byte>): (n: nat)
    requires Wf(h) && h != [] && TailOffset(h) < S && buf != []
    ensures 0 < n <= |buf| && TailOffset(h) + n <= S
  {
    if |buf| + TailOffset(h) > S then S - TailOffset(h) else |buf|
  }

  // The bytes of `buf` placed after the tail, opening sections as they are needed.
  function Append(h: History, buf: seq<byte>, start: bool, subsequent: nat): (r: History)
    requires Wf(h)
    ensures Wf(r)
    decreases |buf|
  {
    if buf == [] then h else
    var h1 := Opened(h, buf, start, subsequent);
    var n := Room(h1, buf);
    Append(Extend(h1, buf[..n]), buf[n..], false, subsequent)
  }

  lemma AppendUnfolds(h: History, buf: seq<byte>, start: bool, subsequent: nat)
    requires Wf(h) && buf != []
    ensures var h1 := Opened(h, buf, start, subsequent);
            var n := Room(h1, buf);
            Append(h, buf, start, subsequent) == Append(Extend(h1, buf[..n]), buf[n..], false, subsequent)
  {
  }

  lemma AppendNothing(h: History, start: bool, subsequent: nat)
    requires Wf(h)
    ensures Append(h, [], start, subsequent) == h
  {
  }

  lemma AppendInOneSection(h: History, buf: seq<byte>, start: bool, subsequent: nat)
    requires Wf(h) && buf != [] && TailOffset(h) < S && TailOffset(h) + |buf| <= S
    ensures Append(h, buf, start, subsequent) == Extend(h, buf)
  {
    assert buf[..|buf|] == buf && buf[|buf|..] == [];
  }

  lemma ExtendTwice(h: History, a: seq<byte>, b: seq<byte>)
    requires h != []
    ensures Extend(Extend(h, a), b) == Extend(h, a + b)
  {
    assert h[|h| - 1] + a + b == h[|h| - 1] + (a + b);
  }

  lemma ExtendWf(h: History, a: seq<byte>)
    requires Wf(h) && h != [] && TailOffset(h) + |a| <= S
    ensures Wf(Extend(h, a))
  {
  }

  // The same, when the first piece fits in the section it starts in.
  lemma AppendFusesHere(h: History, a: seq<byte>, b: seq<byte>, subsequent: nat, start: bool)
    requires Wf(h) && a != [] && TailOffset(h) < S && TailOffset(h) + |a| <= S
    ensures Append(Extend(h, a), b, false, subsequent) == Append(h, a + b, start, subsequent)
  {
    assert h != [];
    hide Append, Wf, TailOffset, Opened, Room, Extend;
    ExtendWf(h, a);
    if b == [] {
      assert a + b == a;
      AppendInOneSection(h, a, start, subsequent);
      AppendNothing(Extend(h, a), false, subsequent);
    } else {
      FusesHere(h, a, b, subsequent, start);
    }
  }

  lemma HereRoom(h: History, a: seq<byte>, b: seq<byte>, subsequent: nat, start: bool)
    requires Wf(h) && a != [] && b != [] && h != [] && TailOffset(h) < S && TailOffset(h) + |a| <= S
    ensures Opened(h, a + b, start, subsequent) == h
    ensures TailOffset(Extend(h, a)) == TailOffset(h) + |a| && Wf(Extend(h, a))
    ensures TailOffset(h) + |a| == S ==> Room(h, a + b) == |a|
    ensures TailOffset(h) + |a| < S ==>
              Opened(Extend(h, a), b, false, subsequent) == Extend(h, a) && Room(h, a + b) == |a| + Room(Extend(h, a), b)
  {
  }

  lemma SplitsSum<T>(a: seq<T>, b: seq<T>, j: nat)
    requires j <= |b|
    ensures (a + b)[..|a| + j] == a + b[..j] && (a + b)[|a| + j..] == b[j..]
  {
  }

  lemma FusesHere(h: History, a: seq<byte>, b: seq<byte>, subsequent: nat, start: bool)
    requires Wf(h) && h != [] && a != [] && b != [] && TailOffset(h) < S && TailOffset(h) + |a| <= S
    ensures Wf(Extend(h, a)) && Append(Extend(h, a), b, false, subsequent) == Append(h, a + b, start, subsequent)
  {
    hide *;
    HereRoom(h, a, b, subsequent, start);
    AppendUnfolds(h, a + b, start, subsequent);
    if TailOffset(h) + |a| == S {
      SplitsSum(a, b, 0);
      assert a + b[..0] == a && b[0..] == b;
    } else {
      FusesPartly(h, a, b, subsequent);
    }
  }

  lemma FusesPartly(h: History, a: seq<byte>, b: seq<byte>, subsequent: nat)
    requires h != [] && Wf(Extend(h, a)) && b != [] && TailOffset(Extend(h, a)) < S
    requires Opened(Extend(h, a), b, false, subsequent) == Extend(h, a)
    ensures var n := |a| + Room(Extend(h, a), b);
            && n <= |a + b| && Wf(Extend(h, (a + b)[..n]))
            && Append(Extend(h, a), b, false, subsequent) == Append(Extend(h, (a + b)[..n]), (a + b)[n..], false, subsequent)
  {
    hide *;
    var h2 := Extend(h, a);
    AppendUnfolds(h2, b, false, subsequent);
    var j := Room(h2, b);
    SplitsSum(a, b, j);
    ExtendTwice(h, a, b[..j]);
    ExtendWf(h2, b[..j]);
  }

  lemma AppendFills(h1: History, a: seq<byte>, b: seq<byte>, start: bool, subsequent: nat)
    requires Wf(h1) && h1 != [] && a != [] && TailOffset(h1) < S && |a| + TailOffset(h1) <= S
    ensures Append(h1, a, start, |b| + subsequent) == Extend(h1, a)
    ensures Append(Extend(h1, a), b, false, subsequent) == Append(h1, a + b, start, subsequent)
  {
    AppendInOneSection(h1, a, start, |b| + subsequent);
    AppendFusesHere(h1, a, b, subsequent, start);
  }

  lemma AppendOpens(h: History, buf: seq<byte>, start: bool, subsequent: nat)
    requires Wf(h) && buf != []
    ensures Append(h, buf, start, subsequent) == Append(Opened(h, buf, start, subsequent), buf, start, subsequent)
  {
    hide Append;
    AppendUnfolds(h, buf, start, subsequent);
    AppendUnfolds(Opened(h, buf, start, subsequent), buf, start, subsequent);
  }

  lemma FirstRoom(h: History, a: seq<byte>, b: seq<byte>, start: bool, subsequent: nat)
    requires Wf(h) && a != []
    ensures var h1 := Opened(h, a, start, |b| + subsequent);
            && h1 == Opened(h, a + b, start, subsequent) && Wf(h1) && h1 != [] && TailOffset(h1) < S
            && var n := Room(h1, a);
               && (n < |a| ==> Room(h1, a + b) == n)
               && (n == |a| ==> |a| + TailOffset(h1) <= S)
               && Wf(Extend(h1, a[..n])) && (a + b)[..n] == a[..n] && (a + b)[n..] == a[n..] + b
  {
    hide HeadBytes, Extend, NodeOffset;
    var h1 := Opened(h, a, start, |b| + subsequent);
    ExtendWf(h1, a[..Room(h1, a)]);
    hide Wf;
  }

  // Writing a node in pieces leaves the same bytes as writing it at once.
  lemma {:induction false} AppendFuses(h: History, a: seq<byte>, b: seq<byte>, start: bool, subsequent: nat)
    requires Wf(h) && a != []
    ensures Append(Append(h, a, start, |b| + subsequent), b, false, subsequent) == Append(h, a + b, start, subsequent)
    decreases |a|
  {
    hide *;
    var h1 := Opened(h, a, start, |b| + subsequent);
    FirstRoom(h, a, b, start, subsequent);
    AppendOpens(h, a, start, |b| + subsequent);
    AppendOpens(h, a + b, start, subsequent);
    var n := Room(h1, a);
    if n < |a| {
      OpenedAlready(h1, a, start, |b| + subsequent);
      OpenedAlready(h1, a + b, start, subsequent);
      AppendUnfolds(h1, a, start, |b| + subsequent);
      AppendUnfolds(h1, a + b, start, subsequent);
      AppendFuses(Extend(h1, a[..n]), a[n..], b, false, subsequent);
    } else {
      AppendFills(h1, a, b, start, subsequent);
    }
  }

  lemma OpenedAlready(h: History, buf: seq<byte>, start: bool, subsequent: nat)
    requires Wf(h) && buf != [] && TailOffset(h) < S
    ensures Opened(h, buf, start, subsequent) == h
  {
  }

  // ---- Padding ----

  function PadLength(h: History): (n: nat)
    ensures n < PAGE && (TailOffset(h) + n) % PAGE == 0
  {
    if TailOffset(h) % PAGE == 0 then 0 else PAGE - TailOffset(h) % PAGE
  }

  // data_write_through: the rest of the tail's page is given up.
  function Padded(h: History): (r: History)
    requires Wf(h)
    ensures Wf(r) && TailOffset(r) % PAGE == 0 && |r| == |h|
  {
    PageBelow(TailOffset(h));
    if PadLength(h) == 0 then h else Extend(h, seq(PadLength(h), _ => ERASED))
  }

  // ---- Addresses ----

  datatype Addr = Addr(k: nat, off: nat)

  // Where the next node will start.
  function Cursor(h: History): Addr {
    if TailOffset(h) == S then Addr(|h|, HEAD) else Addr(|h| - 1, TailOffset(h))
  }

  // section_offset_calc
  function Advance(a: Addr, len: nat): Addr {
    if a.off + len >= S then Addr(a.k + 1, a.off + len - S + HEAD) else Addr(a.k, a.off + len)
  }

  // `len` bytes from `a`, over at most one section boundary, have been written.
  ghost predicate Present(h: History, a: Addr, len: nat) {
    && a.k < |h| && HEAD <= a.off < S
    && if a.off + len <= S then a.off + len <= |h[a.k]|
       else |h[a.k]| == S && a.k + 1 < |h| && a.off + len - S + HEAD <= |h[a.k + 1]|
  }

  // nvm_read_node, on the history
  function BytesAt(h: History, a: Addr, len: nat): (b: seq<byte>)
    requires Present(h, a, len)
    ensures |b| == len
  {
    if a.off + len <= S then h[a.k][a.off..a.off + len]
    else h[a.k][a.off..S] + h[a.k + 1][HEAD..a.off + len - S + HEAD]
  }

  // Histories only grow.
  ghost predicate Grows(h: History, h': History) {
    |h| <= |h'| && forall k :: 0 <= k < |h| ==> h[k] <= h'[k]
  }

  lemma GrowsTransitive(h: History, h1: History, h2: History)
    requires Grows(h, h1) && Grows(h1, h2)
    ensures Grows(h, h2)
  {
  }

  lemma {:induction false} AppendGrows(h: History, buf: seq<byte>, start: bool, subsequent: nat)
    requires Wf(h)
    ensures Grows(h, Append(h, buf, start, subsequent))
    decreases |buf|
  {
    if buf != [] {
      var h1 := Opened(h, buf, start, subsequent);
      var n := Room(h1, buf);
      OpenedGrows(h, buf, start, subsequent, n);
      AppendGrows(Extend(h1, buf[..n]), buf[n..], false, subsequent);
      AppendUnfolds(h, buf, start, subsequent);
      hide Opened, Room, Grows, Extend, Append;
      GrowsTransitive(h, Extend(h1, buf[..n]), Append(h, buf, start, subsequent));
    }
  }

  lemma OpenedGrows(h: History, buf: seq<byte>, start: bool, subsequent: nat, n: nat)
    requires Wf(h) && buf != [] && n <= |buf|
    ensures Grows(h, Extend(Opened(h, buf, start, subsequent), buf[..n]))
  {
  }

  lemma BytesStay(h: History, h': History, a: Addr, len: nat)
    requires Wf(h) && Wf(h') && Grows(h, h') && Present(h, a, len)
    ensures Present(h', a, len) && BytesAt(h', a, len) == BytesAt(h, a, len)
  {
  }

  // A write of at most a section's worth of bytes crosses at most one boundary.
  lemma AppendSplits(h: History, buf: seq<byte>, start: bool, subsequent: nat)
    requires Wf(h) && 0 < |buf| <= C
    ensures var h1 := Opened(h, buf, start, subsequent);
            var n := Room(h1, buf);
            Append(h, buf, start, subsequent) ==
            if n == |buf| then Extend(h1, buf)
            else Extend(Open(Extend(h1, buf[..n]), NodeOffset(false, |buf| - n + subsequent)), buf[n..])
  {
    hide Append, NodeOffset, Opened, Room, Wf, TailOffset, Extend, Open;
    var h1 := Opened(h, buf, start, subsequent);
    var n := Room(h1, buf);
    RoomFills(h1, buf);
    RestFits(h1, buf);
    AppendUnfolds(h, buf, start, subsequent);
    if n == |buf| {
      assert buf[..n] == buf && buf[n..] == [];
      AppendNothing(Extend(h1, buf), false, subsequent);
    } else {
      AppendRest(Extend(h1, buf[..n]), buf[n..], subsequent);
    }
  }

  lemma RestFits(h: History, buf: seq<byte>)
    requires Wf(h) && h != [] && TailOffset(h) < S && 0 < |buf| <= C
    ensures |buf| - Room(h, buf) <= C
  {
  }

  lemma RoomFills(h: History, buf: seq<byte>)
    requires Wf(h) && h != [] && TailOffset(h) < S && buf != []
    ensures var n := Room(h, buf);
            && (n < |buf| ==> TailOffset(h) + n == S)
            && Extend(h, buf[..n]) != [] && Wf(Extend(h, buf[..n])) && TailOffset(Extend(h, buf[..n])) == TailOffset(h) + n
  {
  }

  // The rest of a write goes to a section of its own.
  lemma AppendRest(h: History, rest: seq<byte>, subsequent: nat)
    requires Wf(h) && h != [] && TailOffset(h) == S && 0 < |rest| <= C
    ensures Append(h, rest, false, subsequent) == Extend(Open(h, NodeOffset(false, |rest| + subsequent)), rest)
  {
    hide Append, NodeOffset;
    AppendOpens(h, rest, false, subsequent);
    AppendInOneSection(Opened(h, rest, false, subsequent), rest, false, subsequent);
  }

  lemma ReadsAcross(h1: History, h2: History, buf: seq<byte>, n: nat)
    requires Wf(h1) && h1 != [] && 0 < n < |buf| <= C && TailOffset(h1) + n == S
    requires |h2| == |h1| + 1 && h2[..|h1|] == Extend(h1, buf[..n]) && |h2[|h1|]| == HEAD
    ensures var r := Extend(h2, buf[n..]);
            var a := Addr(|h1| - 1, TailOffset(h1));
            && Present(r, a, |buf|) && BytesAt(r, a, |buf|) == buf
            && Cursor(r) == Advance(a, |buf|)
  {
    var r := Extend(h2, buf[n..]);
    var t := |h1| - 1;
    assert r[t] == h2[..|h1|][t] == h1[t] + buf[..n];
    assert r[t + 1] == h2[t + 1] + buf[n..];
    assert r[t][TailOffset(h1)..S] == buf[..n];
    assert r[t + 1][HEAD..HEAD + |buf| - n] == buf[n..];
    assert buf == buf[..n] + buf[n..];
  }

  // The written bytes are found at the place where the write began.
  lemma AppendReads(h: History, buf: seq<byte>, start: bool, subsequent: nat)
    requires Wf(h) && 0 < |buf| <= C
    ensures var r := Append(h, buf, start, subsequent);
            && Present(r, Cursor(h), |buf|) && BytesAt(r, Cursor(h), |buf|) == buf
            && Cursor(r) == Advance(Cursor(h), |buf|)
  {
    hide Append, HeadBytes, Present, BytesAt, Advance, Wf, NodeOffset;
    AppendSplits(h, buf, start, subsequent);
    var h1 := Opened(h, buf, start, subsequent);
    var n := Room(h1, buf);
    CursorOpened(h, buf, start, subsequent);
    RoomFills(h1, buf);
    hide Opened, Room, Cursor;
    if n < |buf| {
      var h2 := Open(Extend(h1, buf[..n]), NodeOffset(false, |buf| - n + subsequent));
      ReadsAcross(h1, h2, buf, n);
    } else {
      ReadsHere(h1, buf);
    }
  }

  lemma CursorOpened(h: History, buf: seq<byte>, start: bool, subsequent: nat)
    requires Wf(h) && buf != []
    ensures var h1 := Opened(h, buf, start, subsequent);
            h1 != [] && TailOffset(h1) < S && Cursor(h) == Addr(|h1| - 1, TailOffset(h1)) && Room(h1, buf) <= |buf|
            && (Room(h1, buf) == |buf| ==> TailOffset(h1) + |buf| <= S)
  {
    hide HeadBytes;
  }

  lemma ReadsHere(h: History, buf: seq<byte>)
    requires Wf(h) && h != [] && buf != [] && TailOffset(h) < S && TailOffset(h) + |buf| <= S
    ensures var a := Addr(|h| - 1, TailOffset(h));
            && Present(Extend(h, buf), a, |buf|) && BytesAt(Extend(h, buf), a, |buf|) == buf
            && Cursor(Extend(h, buf)) == Advance(a, |buf|)
  {
  }

  lemma SliceOfSlice<T>(s: seq<T>, lo: nat, hi: nat, from: nat, n: nat)
    requires lo <= hi <= |s| && from + n <= hi - lo
    ensures s[lo..hi][from..from + n] == s[lo + from..lo + from + n]
  {
    var x, y := s[lo..hi][from..from + n], s[lo + from..lo + from + n];
    assert |x| == |y| && forall i :: 0 <= i < n ==> x[i] == s[lo..hi][from + i] == s[lo + (from + i)] == y[i];
  }

  // Two consecutive sections, without the header between them.
  function Tape(h: History, k: nat): seq<byte>
    requires k + 1 < |h| && HEAD <= |h[k + 1]|
  {
    h[k] + h[k + 1][HEAD..]
  }

  lemma OnTapeAt(h: History, a: Addr, len: nat, i: nat)
    requires Present(h, a, len) && a.k + 1 < |h| && |h[a.k]| == S && HEAD <= |h[a.k + 1]| && i < len
    ensures a.off + len <= |Tape(h, a.k)|
    ensures BytesAt(h, a, len)[i] == Tape(h, a.k)[a.off + i] == Tape(h, a.k)[a.off..a.off + len][i]
  {
    if a.off + i >= S {
      assert h[a.k + 1][HEAD..][a.off + i - S] == h[a.k + 1][HEAD + (a.off + i - S)];
    }
  }

  lemma OnTape(h: History, a: Addr, len: nat)
    requires Present(h, a, len) && a.k + 1 < |h| && |h[a.k]| == S && HEAD <= |h[a.k + 1]|
    ensures a.off + len <= |Tape(h, a.k)| && BytesAt(h, a, len) == Tape(h, a.k)[a.off..a.off + len]
  {
    var u, v := BytesAt(h, a, len), Tape(h, a.k)[a.off..a.off + len];
    forall i | 0 <= i < len
      ensures u[i] == v[i]
    {
      OnTapeAt(h, a, len, i);
    }
  }

  lemma DropThenSlice<T>(s: seq<T>, d: nat, a: nat, b: nat)
    requires d <= |s| && a <= b <= |s| - d
    ensures s[d..][a..b] == s[d + a..d + b]
  {
    var x, y := s[d..][a..b], s[d + a..d + b];
    assert |x| == |y| && forall i :: 0 <= i < |x| ==> x[i] == s[d..][a + i] == s[d + (a + i)] == y[i];
  }

  lemma SliceOfSecond<T>(x: seq<T>, y: seq<T>, a: nat, b: nat)
    requires a <= b <= |y|
    ensures (x + y)[|x| + a..|x| + b] == y[a..b]
  {
    var u, v := (x + y)[|x| + a..|x| + b], y[a..b];
    assert |u| == |v| && forall i :: 0 <= i < |u| ==> u[i] == (x + y)[|x| + (a + i)] == y[a + i] == v[i];
  }

  lemma OnNextSection(h: History, k: nat, off: nat, n: nat)
    requires k + 1 < |h| && |h[k]| == S && HEAD <= off && off + n <= |h[k + 1]|
    ensures h[k + 1][off..off + n] == Tape(h, k)[S + off - HEAD..S + off - HEAD + n]
  {
    DropThenSlice(h[k + 1], HEAD, off - HEAD, off - HEAD + n);
    SliceOfSecond(h[k], h[k + 1][HEAD..], off - HEAD, off - HEAD + n);
  }

  lemma SliceHere(h: History, a: Addr, len: nat, from: nat, n: nat)
    requires Present(h, a, len) && a.off + len <= S && from + n <= len && a.off + from < S
    ensures var b := Addr(a.k, a.off + from);
            Present(h, b, n) && BytesAt(h, b, n) == BytesAt(h, a, len)[from..from + n]
  {
    SliceOfSlice(h[a.k], a.off, a.off + len, from, n);
  }

  lemma SliceAfter(h: History, a: Addr, len: nat, from: nat, n: nat)
    requires Wf(h) && Present(h, a, len) && len <= C && a.off + len > S
    requires a.off + from >= S && from + n <= len
    ensures var b := Advance(a, from);
            Present(h, b, n) && BytesAt(h, b, n) == BytesAt(h, a, len)[from..from + n]
  {
    OnTape(h, a, len);
    SliceOfSlice(Tape(h, a.k), a.off, a.off + len, from, n);
    OnNextSection(h, a.k, Advance(a, from).off, n);
    hide Tape;
  }

  lemma SliceAcross(h: History, a: Addr, len: nat, from: nat, n: nat)
    requires Wf(h) && Present(h, a, len) && a.off + len > S
    requires a.off + from < S && from + n <= len
    ensures var b := Addr(a.k, a.off + from);
            Present(h, b, n) && BytesAt(h, b, n) == BytesAt(h, a, len)[from..from + n]
  {
    OnTape(h, a, len);
    SliceOfSlice(Tape(h, a.k), a.off, a.off + len, from, n);
    OnTape(h, Addr(a.k, a.off + from), n);
    hide Tape;
  }

  lemma SliceWithin(h: History, a: Addr, len: nat, from: nat)
    requires Present(h, a, len) && from < len
    ensures HEAD <= a.off < S && (a.off + len <= S ==> a.off + from < S)
    ensures from == 0 ==> Addr(a.k, a.off + from) == a
  {
  }

  // A slice of a node is found at the advanced address.
  lemma SliceOf(h: History, a: Addr, len: nat, from: nat, n: nat)
    requires Wf(h) && Present(h, a, len) && len <= C && from < len && from + n <= len
    ensures var b := if from == 0 then a else Advance(a, from);
            Present(h, b, n) && BytesAt(h, b, n) == BytesAt(h, a, len)[from..from + n]
  {
    hide BytesAt, Wf;
    SliceWithin(h, a, len, from);
    hide Present;
    if a.off + len <= S {
      SliceHere(h, a, len, from, n);
    } else if a.off + from >= S {
      SliceAfter(h, a, len, from, n);
    } else {
      SliceAcross(h, a, len, from, n);
    }
  }

  lemma AdvanceTwice(a: Addr, m: nat, n: nat)
    requires HEAD <= a.off < S && m + n <= C
    ensures Advance(Advance(a, m), n) == Advance(a, m + n)
    ensures HEAD <= Advance(a, m).off < S
  {
  }
}
