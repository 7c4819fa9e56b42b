// The mount walk over a section (dev/module/tinyfs/tinyfs.c:559-585): which node starts it visits, and
// why writing and padding the log keep that list exact.
module MountWalk {
  import opened Nor
  import opened Ring
  import opened Layout
  import opened Codec

  function PageEnd(off: nat): nat { (off / PAGE + 1) * PAGE }

  // From `off` the walk of section `k` visits exactly the nodes `its`: a node is passed by its length,
  // padding by going to the next page, and the walk ends with the section or with the log.
  ghost predicate Walk(h: History, k: nat, off: nat, its: seq<Item>)
    requires k < |h|
    decreases S - off
  {
    if off >= S || off == |h[k]| then its == []
    else
      && HEAD <= off < |h[k]|
      && if its != [] && its[0].at == Addr(k, off) then
           NodeAt(h, its[0]) && Walk(h, k, off + Total(its[0].e), its[1..])
         else
           off % PAGE != 0 && h[k][off] == ERASED && PageEnd(off) <= |h[k]| && Walk(h, k, PageEnd(off), its)
  }

  // Sections that are complete, or have not changed, are walked as before.
  lemma {:induction false} WalkStays(h: History, h': History, k: nat, off: nat, its: seq<Item>)
    requires k < |h| && Wf(h) && Wf(h') && Grows(h, h') && Walk(h, k, off, its)
    requires |h[k]| == S || h'[k] == h[k]
    ensures Walk(h', k, off, its)
    decreases S - off
  {
    hide NodeAt, Wf;
    if off < S && off != |h[k]| {
      if its != [] && its[0].at == Addr(k, off) {
        NodeStays(h, h', its[0]);
        WalkStays(h, h', k, off + Total(its[0].e), its[1..]);
      } else {
        WalkStays(h, h', k, PageEnd(off), its);
      }
    }
  }

  lemma NodeEnds(h: History, it: Item)
    requires h != [] && NodeAt(h, it) && it.at.k == |h| - 1
    ensures 0 < Total(it.e) && it.at.off + Total(it.e) <= TailOffset(h)
  {
  }

  // One step of the walk.
  lemma WalkGoes(h: History, k: nat, off: nat, its: seq<Item>)
    requires k < |h| && off < S && Walk(h, k, off, its)
    ensures if off == |h[k]| then its == []
            else
              && HEAD <= off < |h[k]|
              && if its != [] && its[0].at == Addr(k, off) then
                   NodeAt(h, its[0]) && Walk(h, k, off + Total(its[0].e), its[1..])
                 else
                   && off % PAGE != 0 && h[k][off] == ERASED && off < PageEnd(off) <= |h[k]|
                   && Walk(h, k, PageEnd(off), its)
  {
  }

  lemma WalkEnds(h: History, k: nat, off: nat)
    requires k < |h| && (off >= S || off == |h[k]|)
    ensures Walk(h, k, off, [])
  {
  }

  lemma WalkVisits(h: History, k: nat, off: nat, it: Item, rest: seq<Item>)
    requires k < |h| && HEAD <= off < S && off < |h[k]| && it.at == Addr(k, off) && NodeAt(h, it)
    requires Walk(h, k, off + Total(it.e), rest)
    ensures Walk(h, k, off, [it] + rest)
  {
    hide NodeAt;
    assert ([it] + rest)[1..] == rest;
  }

  lemma WalkSkips(h: History, k: nat, off: nat, its: seq<Item>)
    requires k < |h| && HEAD <= off < S && off < |h[k]| && (its == [] || its[0].at != Addr(k, off))
    requires off % PAGE != 0 && h[k][off] == ERASED && PageEnd(off) <= |h[k]| && Walk(h, k, PageEnd(off), its)
    ensures Walk(h, k, off, its)
  {
  }

  lemma WalkTakesNodeHere(h: History, it: Item)
    requires it.at.k < |h| && NodeAt(h, it)
    requires it.at.off + Total(it.e) < S ==> |h[it.at.k]| == it.at.off + Total(it.e)
    ensures Walk(h, it.at.k, it.at.off, [it])
  {
    WalkEnds(h, it.at.k, it.at.off + Total(it.e));
    WalkVisits(h, it.at.k, it.at.off, it, []);
    assert [it] + [] == [it];
  }

  // A node written at the end of the walked section is visited last.
  lemma {:induction false} WalkTakesNode(h: History, h': History, off: nat, its: seq<Item>, it: Item)
    requires h != [] && Wf(h) && Wf(h') && Grows(h, h') && off <= TailOffset(h) && Walk(h, |h| - 1, off, its)
    requires TailOffset(h) < S && it.at == Addr(|h| - 1, TailOffset(h)) && NodeAt(h', it)
    requires TailOffset(h) + Total(it.e) < S ==> |h'[|h| - 1]| == TailOffset(h) + Total(it.e)
    ensures Walk(h', |h| - 1, off, its + [it])
    decreases S - off
  {
    hide NodeAt, Wf, Walk;
    var k := |h| - 1;
    WalkGoes(h, k, off, its);
    if off == |h[k]| {
      WalkTakesNodeHere(h', it);
      assert its + [it] == [it];
    } else if its != [] && its[0].at == Addr(k, off) {
      NodeEnds(h, its[0]);
      NodeStays(h, h', its[0]);
      assert its + [it] == [its[0]] + (its[1..] + [it]);
      WalkTakesNode(h, h', off + Total(its[0].e), its[1..], it);
      WalkVisits(h', k, off, its[0], its[1..] + [it]);
    } else {
      assert h'[k][off] == ERASED;
      WalkTakesNode(h, h', PageEnd(off), its, it);
      WalkSkips(h', k, off, its + [it]);
    }
  }

  // Padding is skipped: the same nodes are visited.
  lemma {:induction false} WalkTakesPadding(h: History, off: nat, its: seq<Item>)
    requires h != [] && Wf(h) && off <= TailOffset(h) && Walk(h, |h| - 1, off, its)
    ensures Walk(Padded(h), |h| - 1, off, its)
    decreases S - off
  {
    hide NodeAt;
    var k, h' := |h| - 1, Padded(h);
    if off == |h[k]| {
      PageBelow(off);
      if PadLength(h) > 0 {
        assert PageEnd(off) == |h'[k]|;
        WalkEnds(h', k, PageEnd(off));
      }
    } else if its != [] && its[0].at == Addr(k, off) {
      NodeEnds(h, its[0]);
      NodeStays(h, h', its[0]);
      WalkTakesPadding(h, off + Total(its[0].e), its[1..]);
    } else {
      WalkTakesPadding(h, PageEnd(off), its);
    }
  }

  // ---- All sections ----

  type Items = seq<seq<Item>>

  function FirstNode(h: History, k: nat): u16
    requires k < |h| && HEAD <= |h[k]|
  {
    U16(h[k], 2)
  }

  // The header of section k is intact, and the walk from the node offset it holds visits `its`.
  ghost predicate SectionWalks(h: History, k: nat, its: seq<Item>)
    requires k < |h|
  {
    && HEAD <= |h[k]|
    && h[k][..HEAD] == HeadBytes((k + 1) % 0x1_0000, FirstNode(h, k))
    && HEAD <= FirstNode(h, k) < S
    && Walk(h, k, FirstNode(h, k), its)
  }

  ghost predicate Walks(h: History, items: Items) {
    |items| == |h| && forall k :: 0 <= k < |h| ==> SectionWalks(h, k, items[k])
  }

  // `it` starts in the section of its address; a node that runs into the next one opens it.
  function AddItem(items: Items, sections: nat, it: Item): (r: Items) {
    var r := if it.at.k < |items| then items[it.at.k := items[it.at.k] + [it]] else items + [[it]];
    if |r| < sections then r + [[]] else r
  }

  lemma HeaderOf(h: History, head: seq<byte>, rest: seq<byte>, k: nat, nodeOffset: u16)
    requires k < |h| && head == HeadBytes((k + 1) % 0x1_0000, nodeOffset) && h[k] == head + rest
    ensures h[k][..HEAD] == head && FirstNode(h, k) == nodeOffset
  {
    assert head[2] == Le16(nodeOffset)[0] && head[3] == Le16(nodeOffset)[1];
  }

  lemma SectionStays(h: History, h': History, k: nat, its: seq<Item>)
    requires k < |h| && Wf(h) && Wf(h') && Grows(h, h') && SectionWalks(h, k, its)
    requires |h[k]| == S || h'[k] == h[k]
    ensures SectionWalks(h', k, its)
  {
    hide Walk, HeadBytes, Wf;
    SameHeader(h[k], h'[k]);
    assert k < |h'| && FirstNode(h', k) == FirstNode(h, k);
    hide Grows;
    WalkStays(h, h', k, FirstNode(h, k), its);
  }

  lemma SameHeader(b: seq<byte>, b': seq<byte>)
    requires HEAD <= |b| && b <= b'
    ensures b'[..HEAD] == b[..HEAD] && U16(b', 2) == U16(b, 2)
  {
  }

  lemma SectionTakesNode(h: History, h': History, its: seq<Item>, it: Item)
    requires h != [] && Wf(h) && Wf(h') && Grows(h, h') && SectionWalks(h, |h| - 1, its)
    requires FirstNode(h, |h| - 1) <= TailOffset(h)
    requires TailOffset(h) < S && it.at == Addr(|h| - 1, TailOffset(h)) && NodeAt(h', it)
    requires TailOffset(h) + Total(it.e) < S ==> |h'[|h| - 1]| == TailOffset(h) + Total(it.e)
    ensures SectionWalks(h', |h| - 1, its + [it])
  {
    var k := |h| - 1;
    hide Walk, NodeAt, HeadBytes;
    assert h'[k][..HEAD] == h[k][..HEAD];
    WalkTakesNode(h, h', FirstNode(h, k), its, it);
  }

  // The walk starts inside what has been written.
  lemma WalkStarts(h: History, k: nat, off: nat, its: seq<Item>)
    requires k < |h| && off < S && Walk(h, k, off, its)
    ensures off <= |h[k]|
  {
  }

  lemma OthersStay(h: History, h': History, items: Items, n: nat)
    requires Wf(h) && Wf(h') && Grows(h, h') && Walks(h, items) && n <= |h|
    requires forall k :: 0 <= k < n ==> |h[k]| == S || h'[k] == h[k]
    ensures forall k :: 0 <= k < n ==> SectionWalks(h', k, items[k])
  {
    hide Wf, SectionWalks, Grows;
    forall k | 0 <= k < n
      ensures k < |h'| && SectionWalks(h', k, items[k])
    {
      assert k < |h'| by {
        GrowsCounts(h, h');
      }
      SectionStays(h, h', k, items[k]);
    }
  }

  lemma GrowsCounts(h: History, h': History)
    requires Grows(h, h')
    ensures |h| <= |h'|
  {
  }

  lemma FirstNodeShape(h: History, b: seq<byte>)
    requires Wf(h) && 0 < |b| <= C && TailOffset(h) == S
    ensures Append(h, b, true, 0) == h + [HeadBytes((|h| + 1) % 0x1_0000, HEAD) + b]
  {
    AppendSplits(h, b, true, 0);
    hide Append, HeadBytes;
  }

  // The tail section takes `x`, and a new section starts with `y`.
  function Crossed(h: History, x: seq<byte>, nodeOffset: u16, y: seq<byte>): History
    requires h != []
  {
    h[..|h| - 1] + [h[|h| - 1] + x, HeadBytes((|h| + 1) % 0x1_0000, nodeOffset) + y]
  }

  lemma CrossingShape(h: History, b: seq<byte>)
    requires Wf(h) && |b| <= C && TailOffset(h) < S < TailOffset(h) + |b|
    ensures h != []
    ensures var n := S - TailOffset(h);
            Append(h, b, true, 0) == Crossed(h, b[..n], HEAD + |b| - n, b[n..])
  {
    hide *;
    CrossingRoom(h, b);
    AppendSplits(h, b, true, 0);
    var n := S - TailOffset(h);
    OpenedShape(h, b[..n], NodeOffset(false, |b| - n), b[n..]);
  }

  lemma OpenedShape(h: History, x: seq<byte>, nodeOffset: u16, y: seq<byte>)
    requires h != []
    ensures Extend(Open(Extend(h, x), nodeOffset), y) == Crossed(h, x, nodeOffset, y)
  {
    hide HeadBytes;
    var h2 := Extend(h, x);
    var h3 := Open(h2, nodeOffset);
    assert h3[..|h3| - 1] == h2;
  }

  lemma CrossingRoom(h: History, b: seq<byte>)
    requires Wf(h) && |b| <= C && TailOffset(h) < S < TailOffset(h) + |b|
    ensures h != [] && b != [] && Opened(h, b, true, 0) == h && Room(h, b) == S - TailOffset(h) < |b|
    ensures NodeOffset(false, |b| - (S - TailOffset(h))) == HEAD + |b| - (S - TailOffset(h))
  {
    hide Wf;
  }

  // A node that opens a section is its first node.
  lemma WalksTakeFirstNode(h: History, items: Items, e: Entry)
    requires Wf(h) && Walks(h, items) && Total(e) <= C && TailOffset(h) == S
    ensures var h' := Append(h, Bytes(e), true, 0);
            Walks(h', AddItem(items, |h'|, Item(Cursor(h), e)))
  {
    hide Append, NodeAt, Bytes, HeadBytes, Walk;
    var k, b, head := |h|, Bytes(e), HeadBytes((|h| + 1) % 0x1_0000, HEAD);
    var h', it := Append(h, b, true, 0), Item(Cursor(h), e);
    FirstNodeShape(h, b);
    NodeAppended(h, e);
    HeaderOf(h', head, b, k, HEAD);
    WalkTakesNodeHere(h', it);
    OthersStay(h, h', items, |h|);
  }

  lemma TailWalks(h: History, items: Items)
    requires Walks(h, items) && h != []
    ensures var k := |h| - 1;
            SectionWalks(h, k, items[k]) && FirstNode(h, k) <= TailOffset(h)
  {
    hide HeadBytes, Walk;
    var k := |h| - 1;
    assert SectionWalks(h, k, items[k]);
    WalkStarts(h, k, FirstNode(h, k), items[k]);
  }

  // A node that fits in the tail section is visited last there.
  lemma WalksTakeInnerNode(h: History, items: Items, e: Entry)
    requires Wf(h) && Walks(h, items) && TailOffset(h) + Total(e) <= S && TailOffset(h) < S && Total(e) <= C
    ensures var h' := Append(h, Bytes(e), true, 0);
            Walks(h', AddItem(items, |h'|, Item(Cursor(h), e)))
  {
    hide Append, NodeAt, Bytes, HeadBytes, Walk, SectionWalks;
    var k, b := |h| - 1, Bytes(e);
    var h', it := Append(h, b, true, 0), Item(Cursor(h), e);
    AppendInOneSection(h, b, true, 0);
    AppendGrows(h, b, true, 0);
    NodeAppended(h, e);
    TailWalks(h, items);
    SectionTakesNode(h, h', items[k], it);
    OthersStay(h, h', items, k);
  }

  // A node that runs into the next section is visited last in the old one and skipped in the new one.
  lemma WalksTakeCrossingNode(h: History, items: Items, e: Entry)
    requires Wf(h) && Walks(h, items) && TailOffset(h) + Total(e) > S && TailOffset(h) < S && Total(e) <= C
    ensures var h' := Append(h, Bytes(e), true, 0);
            Walks(h', AddItem(items, |h'|, Item(Cursor(h), e)))
  {
    hide Append, NodeAt, Bytes, HeadBytes, Walk;
    var k, b := |h| - 1, Bytes(e);
    var h', it := Append(h, b, true, 0), Item(Cursor(h), e);
    var n := S - TailOffset(h);
    var first := HEAD + |b| - n;
    var head := HeadBytes((|h| + 1) % 0x1_0000, first);
    CrossingShape(h, b);
    AppendGrows(h, b, true, 0);
    NodeAppended(h, e);
    WalkStarts(h, k, FirstNode(h, k), items[k]);
    HeaderOf(h', head, b[n..], k + 1, first);
    WalkEnds(h', k + 1, first);
    SectionTakesNode(h, h', items[k], it);
    OthersStay(h, h', items, k);
    hide SectionWalks;
    var items' := items[k := items[k] + [it]] + [[]];
    assert AddItem(items, |h'|, it) == items';
    assert SectionWalks(h', k + 1, items'[k + 1]);
  }

  // Writing a node adds it, and nothing else, to what a mount visits.
  lemma WalksTakeNode(h: History, items: Items, e: Entry)
    requires Wf(h) && Walks(h, items) && Total(e) <= C
    ensures var h' := Append(h, Bytes(e), true, 0);
            Walks(h', AddItem(items, |h'|, Item(Cursor(h), e)))
  {
    hide Append, Walks, AddItem, Wf;
    if TailOffset(h) >= S {
      assert TailOffset(h) == S by {
        TailWithin(h);
      }
      WalksTakeFirstNode(h, items, e);
    } else if TailOffset(h) + Total(e) <= S {
      WalksTakeInnerNode(h, items, e);
    } else {
      WalksTakeCrossingNode(h, items, e);
    }
  }

  lemma TailWithin(h: History)
    requires Wf(h)
    ensures TailOffset(h) <= S
  {
  }

  lemma WalksTakePadding(h: History, items: Items)
    requires Wf(h) && Walks(h, items)
    ensures Walks(Padded(h), items)
  {
    hide Walk, HeadBytes;
    if h != [] {
      var k, h' := |h| - 1, Padded(h);
      assert Grows(h, h') && h'[..k] == h[..k];
      WalkStarts(h, k, FirstNode(h, k), items[k]);
      WalkTakesPadding(h, FirstNode(h, k), items[k]);
      assert h'[k][..HEAD] == h[k][..HEAD];
      hide Padded;
      OthersStay(h, h', items, k);
    }
  }
}
