// The log and the nodes kept in step: moving, adding and removing nodes, and the garbage collector
// (dev/module/tinyfs/tinyfs.c:927-998).
module Collector {
  import opened Nor
  import opened Ring
  import opened Layout
  import opened LogWriter
  import opened Codec
  import opened LogNodes
  import opened MountWalk
  import opened LogReplay
  import opened Nodes
  import opened Table
  import opened Index

  // The id that a node's parent pointer stands for.
  ghost predicate Parented(nodes: seq<Node>, key: map<nat, Key>, live: Live) {
    forall i :: i in key && i < |nodes| && key[i] in live && IsAdd(live[key[i]].e) ==>
      nodes[i].parentDir < |nodes| && nodes[nodes[i].parentDir].idOrLength == live[key[i]].e.parent
  }

  // Only places and threading differ.
  ghost predicate SameButPlace(a: seq<Node>, b: seq<Node>) {
    |a| == |b| && forall i :: 0 <= i < |a| ==>
      b[i] == a[i].(section := b[i].section, offset := b[i].offset, adjacent := b[i].adjacent)
  }

  lemma MatchedLength(n: Node, it: Item)
    requires NodeMatches(n, it)
    ensures n.Length() == Total(it.e)
  {
  }

  lemma Forgotten(l: Live, skip: set<Key>, e: Entry)
    requires KeyOf(e) in l
    ensures |l - {KeyOf(e)}| == |l| - 1 && |skip - {KeyOf(e)}| <= |skip|
  {
    assert (l - {KeyOf(e)}).Keys == l.Keys - {KeyOf(e)};
    assert |l| == |l.Keys| && |l - {KeyOf(e)}| == |(l - {KeyOf(e)}).Keys|;
    SubsetCounts(skip - {KeyOf(e)}, skip);
  }

  lemma ParentOf(nodes: seq<Node>, key: map<nat, Key>, live: Live, idx: nat)
    requires Parented(nodes, key, live) && idx in key && idx < |nodes| && key[idx] in live && IsAdd(live[key[idx]].e)
    ensures nodes[idx].parentDir < |nodes|
    ensures nodes[nodes[idx].parentDir].idOrLength == live[key[idx]].e.parent
  {
  }

  ghost predicate SameEntries(a: Live, b: Live) {
    a.Keys == b.Keys && forall k :: k in a ==> b[k].e == a[k].e
  }

  lemma ParentedMoves(a: seq<Node>, b: seq<Node>, key: map<nat, Key>, l: Live, l': Live)
    requires Parented(a, key, l) && SameButPlace(a, b) && SameEntries(l, l')
    ensures Parented(b, key, l')
  {
  }

  // Every node stands for a live entry, and every live entry for its own key.
  lemma KeysLive(nodes: seq<Node>, lst: seq<seq<nat>>, who: map<Key, nat>, key: map<nat, Key>, live: Live)
    requires IndexOk(nodes, lst, who, key, live)
    ensures forall i :: i in key ==> key[i] in live
    ensures forall k :: k in live ==> KeyOf(live[k].e) == k && IsAdd(live[k].e)
  {
    hide Listed;
    forall k | k in live
      ensures KeyOf(live[k].e) == k && IsAdd(live[k].e)
    {
      assert key[who[k]] == k && NodeMatches(nodes[who[k]], live[k]);
    }
  }

  // The node `idx` now stands for the entry `e`, and nothing else has changed.
  ghost predicate Added(l: Live, l': Live, key: map<nat, Key>, key': map<nat, Key>, idx: nat, e: Entry) {
    && (exists at :: l' == l[KeyOf(e) := Item(at, e)])
    && key' == key[idx := KeyOf(e)]
  }

  // The node `idx` has got a new place, in the section `p`.
  ghost predicate Requeued(a: seq<Node>, b: seq<Node>, idx: nat, p: nat) {
    SameButPlace(a, b) && idx < |a| && b[idx].section == p && forall i :: 0 <= i < |a| && i != idx ==> b[i].section == a[i].section
  }

  lemma ItIsRequeued(a: seq<Node>, b: seq<Node>, idx: nat, section: nat, offset: nat)
    requires idx < |a| && SameButAdjacent(a[idx := a[idx].(section := section, offset := offset)], b)
    ensures Requeued(a, b, idx, section)
  {
  }

  // Unlisting a node leaves it as it is.
  lemma UnlistedSame(a: seq<Node>, b: seq<Node>, idx: nat, it: Item)
    requires SameButAdjacent(a, b) && idx < |a| && NodeMatches(a[idx], it) && a[idx].parentDir < |a|
    ensures |b| == |a| && NodeMatches(b[idx], it) && b[idx].section == a[idx].section && b[idx].Length() == a[idx].Length()
    ensures b[idx].parentDir == a[idx].parentDir && b[b[idx].parentDir].idOrLength == a[a[idx].parentDir].idOrLength
  {
  }

  lemma PlacedAnew(a: seq<Node>, b: seq<Node>, c: seq<Node>, idx: nat, p: nat)
    requires SameButAdjacent(a, b) && Requeued(b, c, idx, p)
    ensures SameButPlace(a, c) && idx < |c| == |a| && c[idx].Length() == a[idx].Length() && c[idx].section == p
    ensures forall i :: 0 <= i < |a| && i != idx ==> c[i].section == a[i].section
  {
  }

  lemma ApplyAdds(l: Live, it: Item)
    requires IsAdd(it.e)
    ensures Apply(l, it) == l[KeyOf(it.e) := it] && |Apply(l, it)| <= |l| + 1
  {
    var k := KeyOf(it.e);
    assert l[k := it].Keys == l.Keys + {k};
    assert |l| == |l.Keys| && |l[k := it]| == |l[k := it].Keys|;
  }

  lemma ApplyDrops(l: Live, it: Item)
    requires !IsAdd(it.e)
    ensures Apply(l, it) == l - {KeyOf(it.e)}
  {
  }

  lemma RequeuedIs(a: seq<Node>, b: seq<Node>, idx: nat, p: nat)
    requires Requeued(a, b, idx, p)
    ensures SameButPlace(a, b) && idx < |a| == |b| && b[idx].Length() == a[idx].Length()
  {
  }

  lemma AddedIs(l: Live, key: map<nat, Key>, idx: nat, it: Item)
    ensures Added(l, l[KeyOf(it.e) := it], key, key[idx := KeyOf(it.e)], idx, it.e)
  {
    assert Item(it.at, it.e) == it;
  }

  lemma RecordMatches(n: Node, section: nat, offset: nat, it: Item)
    requires it.e.RecordAdd? && !n.IsDir() && n.name == it.e.name && n.idOrLength == |it.e.data|
    requires section == Phys(it.at.k) && offset == it.at.off
    ensures NodeMatches(n.(section := section, offset := offset), it)
  {
  }

  lemma DirMatches(n: Node, section: nat, offset: nat, it: Item)
    requires it.e.DirAdd? && n.IsDir() && n.name == it.e.name && n.idOrLength == it.e.id
    requires section == Phys(it.at.k) && offset == it.at.off
    ensures NodeMatches(n.(section := section, offset := offset), it)
  {
  }

  lemma SameButWhere(l: Live, k: Key, it: Item)
    requires k in l && l[k].e == it.e
    ensures SameEntries(l, l[k := it])
  {
  }

  class Store {
    const log: LogStore
    const tab: NodeTable
    ghost var items: Items          // every node ever written, by section
    ghost var live: Live            // what the log means
    ghost var who: map<Key, nat>    // the node of each live key
    ghost var key: map<nat, Key>
    ghost var skip: set<Key>        // keys that memory has let go before the log
    ghost var top: nat              // no directory id in the log is greater

    constructor (flash: Flash)
      ensures fresh(log) && fresh(log.cache) && fresh(log.cache.buf) && log.cache.nvm == flash
      ensures log.cache.idx == 0 && log.cache.buf.Length == PAGE
      ensures fresh(tab) && fresh(tab.pool) && fresh(tab.pool.refCnt) && log.cache.buf != tab.pool.refCnt
      ensures tab.Threaded() && tab.Counted() && tab.pool.Held() == {} && tab.lst == seq(N, _ => [])
      ensures tab.pool.allocatable != [] && tab.pool.allocatable[0] == tab.pool.Elem(ROOT)
    {
      log := new LogStore(flash);
      tab := new NodeTable();
      items, live, who, key, skip, top := [], map[], map[], map[], {}, 0;
    }

    ghost predicate Agreed()
      reads this, log, tab
    {
      && tab.Threaded()
      && LogOk(log.h, log.lo, items, live, skip)
      && IndexOk(tab.nodes, tab.lst, who, key, live)
      && |live| + |skip| <= POOL - 1 && IdsBelow(Flat(items, log.lo), top)
    }

    ghost predicate Valid()
      reads this, log, log.cache, log.cache.buf, log.cache.nvm, tab
    {
      log.Valid() && Agreed()
    }

    lemma Parts()
      requires Valid()
      ensures log.Valid() && tab.Threaded() && LogOk(log.h, log.lo, items, live, skip)
      ensures IndexOk(tab.nodes, tab.lst, who, key, live) && |live| + |skip| <= POOL - 1
      ensures IdsBelow(Flat(items, log.lo), top)
      ensures forall i :: i in key ==> key[i] in live
      ensures forall k :: k in live ==> KeyOf(live[k].e) == k && IsAdd(live[k].e)
    {
      hide ListsOk, LogOk, LogStore.Valid, IdsBelow, Flat;
      KeysLive(tab.nodes, tab.lst, who, key, live);
    }

    lemma Whole()
      requires log.Valid() && tab.Threaded() && LogOk(log.h, log.lo, items, live, skip)
      requires IndexOk(tab.nodes, tab.lst, who, key, live) && |live| + |skip| <= POOL - 1
      requires IdsBelow(Flat(items, log.lo), top)
      ensures Valid()
    {
      hide ListsOk, LogOk, LogStore.Valid, IndexOk, IdsBelow, Flat;
    }

    // Links of nodes are set; places and listing are not touched.
    method Relink(b: seq<Node>)
      requires Valid() && |b| == POOL && ListsOk(b, tab.list, tab.lst) && IndexOk(b, tab.lst, who, key, live)
      modifies tab`nodes
      ensures Valid() && tab.nodes == b
    {
      hide LogStore.Valid, LogOk, IndexOk, ListsOk;
      tab.nodes := b;
    }

    // tinyfs_list_del of a node whose key is about to be written anew
    method Detach(idx: nat)
      requires Valid() && idx in key
      modifies tab`nodes, tab`list, tab`lst, this`live, this`who, this`key, this`skip
      ensures Valid() && SameButAdjacent(old(tab.nodes), tab.nodes)
      ensures live == old(live) - {old(key)[idx]} && skip == old(skip) + {old(key)[idx]}
      ensures key == old(key) - {idx} && who == old(who) - {old(key)[idx]}
      ensures Sum(tab.list) == Sum(old(tab.list)) - old(tab.nodes)[idx].Length()
      ensures var p := old(tab.nodes)[idx].section;
              && tab.list == old(tab.list)[p := tab.list[p]]
              && tab.list[p].size == old(tab.list)[p].size - old(tab.nodes)[idx].Length()
    {
      hide LogStore.Valid, LogOk, IndexOk, ListsOk, NodeMatches;
      ghost var a, list, lst, k := tab.nodes, tab.list, tab.lst, key[idx];
      WhereListed(a, lst, who, key, live, idx);
      LogSkips(log.h, log.lo, items, live, skip, k);
      var p := tab.nodes[idx].section;
      var del, j := tab.TinyListDel(p, idx);
      IndexDetaches(a, tab.nodes, list, lst, who, key, live, idx, p, j);
      SumPuts(list, tab.list, p);
      live, skip, who, key := live - {k}, skip + {k}, who - {k}, key - {idx};
    }

    // The node `e` has just been written after the history `h0`.
    ghost predicate Wrote(h0: History, e: Entry)
      reads this, log, log.cache, log.cache.buf, log.cache.nvm, tab
    {
      && log.Valid() && tab.Threaded()
      && Wf(h0) && (h0 == [] ==> log.lo == 0) && (h0 != [] ==> log.lo < |h0|)
      && Total(e) <= C && log.h == Append(h0, Bytes(e), true, 0)
      && LogOk(h0, log.lo, items, live, skip)
      && IndexOk(tab.nodes, tab.lst, who, key, live) && IdsBelow(Flat(items, log.lo), top)
    }

    lemma WroteParts(h0: History, e: Entry)
      requires Wrote(h0, e)
      ensures log.Valid() && tab.Threaded() && Wf(h0) && (h0 == [] ==> log.lo == 0) && (h0 != [] ==> log.lo < |h0|)
      ensures Total(e) <= C && log.h == Append(h0, Bytes(e), true, 0) && LogOk(h0, log.lo, items, live, skip)
      ensures IndexOk(tab.nodes, tab.lst, who, key, live) && IdsBelow(Flat(items, log.lo), top)
    {
      hide LogStore.Valid, LogOk, IndexOk, ListsOk, Bytes, Append, Wf, IdsBelow, Flat;
    }

    lemma Writes(h0: History, e: Entry)
      requires log.Valid() && tab.Threaded() && Wf(h0) && (h0 == [] ==> log.lo == 0) && (h0 != [] ==> log.lo < |h0|)
      requires Total(e) <= C && log.h == Append(h0, Bytes(e), true, 0) && LogOk(h0, log.lo, items, live, skip)
      requires IndexOk(tab.nodes, tab.lst, who, key, live) && IdsBelow(Flat(items, log.lo), top)
      ensures Wrote(h0, e)
    {
      hide LogStore.Valid, LogOk, IndexOk, ListsOk, Bytes, Append, Wf, IdsBelow, Flat;
    }

    // The node gets its place and goes to the list of its section.
    method Enlist(idx: nat, section: nat, offset: nat, ghost it: Item)
      requires tab.Threaded() && IndexOk(tab.nodes, tab.lst, who, key, live) && IsAdd(it.e)
      requires idx !in key && ROOT < idx < POOL && KeyOf(it.e) !in live && section == Phys(it.at.k)
      requires NodeMatches(tab.nodes[idx].(section := section, offset := offset), it)
      modifies tab`nodes, tab`list, tab`lst
      ensures tab.Threaded()
      ensures var k := KeyOf(it.e); IndexOk(tab.nodes, tab.lst, who[k := idx], key[idx := k], live[k := it])
      ensures SameButAdjacent(old(tab.nodes)[idx := old(tab.nodes)[idx].(section := section, offset := offset)], tab.nodes)
      ensures Sum(tab.list) == Sum(old(tab.list)) + tab.nodes[idx].Length()
      ensures tab.list == old(tab.list)[section := tab.list[section]]
      ensures tab.lst == old(tab.lst)[section := old(tab.lst)[section] + [idx]]
    {
      hide IndexOk, ListsOk, NodeMatches, SameButAdjacent, Phys;
      var placed := tab.nodes[idx].(section := section, offset := offset);
      ghost var list, lst := tab.list, tab.lst;
      IndexIgnores(tab.nodes, list, lst, who, key, live, idx, placed);
      tab.nodes := tab.nodes[idx := placed];
      ghost var a := tab.nodes;
      tab.TinyListPush(section, idx);
      IndexPuts(a, tab.nodes, lst, who, key, live, idx, it);
      SumPuts(list, tab.list, section);
    }

    // The node takes the place where `e` was written, and is listed there.
    method Attach(idx: nat, section: nat, offset: nat, ghost h0: History, ghost e: Entry)
      requires Wrote(h0, e) && IsAdd(e) && idx !in key && ROOT < idx < POOL && KeyOf(e) !in live
      requires section == Phys(Cursor(h0).k) && offset == Cursor(h0).off
      requires NodeMatches(tab.nodes[idx].(section := section, offset := offset), Item(Cursor(h0), e))
      requires |live| + 1 + |skip - {KeyOf(e)}| <= POOL - 1
      modifies tab`nodes, tab`list, tab`lst, this`items, this`live, this`who, this`key, this`skip, this`top
      ensures Valid()
      ensures SameButAdjacent(old(tab.nodes)[idx := old(tab.nodes)[idx].(section := section, offset := offset)], tab.nodes)
      ensures live == old(live)[KeyOf(e) := Item(Cursor(h0), e)] && skip == old(skip) - {KeyOf(e)}
      ensures key == old(key)[idx := KeyOf(e)] && who == old(who)[KeyOf(e) := idx]
      ensures top == if e.DirAdd? && old(top) < e.id then e.id else old(top)
      ensures Sum(tab.list) == Sum(old(tab.list)) + tab.nodes[idx].Length()
      ensures tab.list == old(tab.list)[section := tab.list[section]]
      ensures tab.lst == old(tab.lst)[section := old(tab.lst)[section] + [idx]]
    {
      hide LogStore.Valid, LogOk, IndexOk, ListsOk, NodeMatches, Bytes, Append, Cursor, Wf, IdsBelow, Flat, SameButAdjacent;
      hide Wrote, Store.Valid, Agreed, Phys, AddItem, Apply;
      ghost var it, k := Item(Cursor(h0), e), KeyOf(e);
      WroteParts(h0, e);
      ApplyAdds(live, it);
      LogTakes(h0, log.lo, items, live, skip, e);
      IdsTake(h0, log.lo, items, live, skip, e, top);
      Enlist(idx, section, offset, it);
      items := AddItem(items, |log.h|, it);
      live, skip, who, key := live[k := it], skip - {k}, who[k := idx], key[idx := k];
      top := if e.DirAdd? && top < e.id then e.id else top;
      Whole();
    }

    // The writing part of node_copy: the node is written again from memory and, for a record's data, from
    // where it was.
    method Rewrite(idx: nat, parent: u16, ghost it: Item) returns (section: nat, offset: nat)
      requires Valid() && idx < POOL && NodeMatches(tab.nodes[idx], it) && it.e.parent == parent
      requires NodeAt(log.h, it) && log.lo <= it.at.k && Total(it.e) <= log.free_bytes
      modifies log`free_bytes, log`tail_available_offset, log`tail_section, log`tail_count, log`h
      modifies log.cache, log.cache.buf, log.cache.nvm
      ensures Wrote(old(log.h), it.e) && log.free_bytes == old(log.free_bytes) - Total(it.e)
      ensures var a := Cursor(old(log.h)); section == Phys(a.k) && offset == a.off
    {
      hide LogStore.Valid, LogOk, IndexOk, ListsOk, Bytes, Append, Cursor, Wf, NodeAt, Metadata, Body;
      log.IsWf();
      NodePlace(log.h, it);
      var n := tab.nodes[idx];
      if n.IsDir() {
        section, offset := DirAddWrite(log, n.name, n.idOrLength, parent);
      } else {
        ghost var h0 := log.h;
        section, offset := RecordAddWrite(log, n.name, parent, n.idOrLength, it.e);
        ghost var h1 := log.h;
        log.IsWf();
        AppendGrows(h0, Metadata(it.e), true, n.idOrLength + 2);
        NodeStays(h0, h1, it);
        RecordDataCopy(log, n.section, n.offset, n.idOrLength + 2, it);
        PiecesMakeNode(h0, h1, log.h, it.e);
      }
    }

    // What node_copy does to a node that has been unlisted.
    method Requeue(idx: nat, parent: u16, ghost it: Item)
      requires Valid() && idx !in key && ROOT < idx < POOL && NodeMatches(tab.nodes[idx], it) && it.e.parent == parent
      requires NodeAt(log.h, it) && log.lo <= it.at.k && Total(it.e) <= log.free_bytes && KeyOf(it.e) !in live
      requires |live| + 1 + |skip - {KeyOf(it.e)}| <= POOL - 1 && (it.e.DirAdd? ==> it.e.id <= top)
      modifies log`free_bytes, log`tail_available_offset, log`tail_section, log`tail_count, log`h
      modifies log.cache, log.cache.buf, log.cache.nvm, tab`nodes, tab`list, tab`lst
      modifies this`items, this`live, this`who, this`key, this`skip, this`top
      ensures Valid() && top == old(top) && Grows(old(log.h), log.h)
      ensures var k := KeyOf(it.e);
              && live == old(live)[k := Item(Cursor(old(log.h)), it.e)] && skip == old(skip) - {k}
              && key == old(key)[idx := k] && who == old(who)[k := idx]
      ensures Requeued(old(tab.nodes), tab.nodes, idx, Phys(Cursor(old(log.h)).k))
      ensures log.free_bytes == old(log.free_bytes) - Total(it.e)
      ensures Sum(tab.list) == Sum(old(tab.list)) + Total(it.e)
      ensures var p := Phys(Cursor(old(log.h)).k); tab.list == old(tab.list)[p := tab.list[p]]
    {
      hide LogStore.Valid, LogOk, IndexOk, ListsOk, Bytes, Append, Cursor, Wf, NodeAt, IdsBelow, Flat, SameButAdjacent, Phys;
      MatchedLength(tab.nodes[idx], it);
      ghost var a, h0 := tab.nodes, log.h;
      log.IsWf();
      assert IsAdd(it.e);
      var section, offset := Rewrite(idx, parent, it);
      AppendGrows(h0, Bytes(it.e), true, 0);
      Attach(idx, section, offset, h0, it.e);
      ItIsRequeued(a, tab.nodes, idx, section, offset);
    }

    // node_copy: the node moves to the tail of the log; what the log means changes only in where.
    method NodeCopy(idx: nat)
      requires Valid() && Parented(tab.nodes, key, live) && idx in key
      requires tab.nodes[idx].Length() <= log.free_bytes
      modifies log`free_bytes, log`tail_available_offset, log`tail_section, log`tail_count, log`h
      modifies log.cache, log.cache.buf, log.cache.nvm, tab`nodes, tab`list, tab`lst
      modifies this`items, this`live, this`who, this`key, this`skip, this`top
      ensures Valid() && Parented(tab.nodes, key, live)
      ensures who == old(who) && key == old(key) && skip == old(skip) && top == old(top)
      ensures live == old(live)[key[idx] := Item(Cursor(old(log.h)), old(live)[key[idx]].e)]
      ensures SameButPlace(old(tab.nodes), tab.nodes)
      ensures forall i :: 0 <= i < POOL && i != idx ==> tab.nodes[i].section == old(tab.nodes)[i].section
      ensures tab.nodes[idx].section == Phys(Cursor(old(log.h)).k)
      ensures log.free_bytes == old(log.free_bytes) - tab.nodes[idx].Length()
      ensures Sum(tab.list) == Sum(old(tab.list))
      ensures var p := old(tab.nodes)[idx].section;
              p != tab.nodes[idx].section ==> tab.list[p].size == old(tab.list)[p].size - tab.nodes[idx].Length()
      ensures Grows(old(log.h), log.h)
    {
      hide LogStore.Valid, LogOk, IndexOk, ListsOk, Bytes, Append, Cursor, Wf, NodeAt, IdsBelow, Flat, NodeMatches, SameButAdjacent;
      hide Parented, SameEntries, SameButPlace, Requeued, Phys;
      WhereListed(tab.nodes, tab.lst, who, key, live, idx);
      ghost var nodes, k, p := tab.nodes, key[idx], Phys(Cursor(log.h).k);
      ghost var it := live[k];
      LiveNode(log.h, log.lo, items, live, skip, k);
      IdsOfLive(log.h, log.lo, items, live, skip, k, top);
      MatchedLength(nodes[idx], it);
      ParentOf(nodes, key, live, idx);
      Repaired(who, key, live, skip, idx, k, Item(Cursor(log.h), it.e));
      Detach(idx);
      ghost var a := tab.nodes;
      UnlistedSame(nodes, a, idx, it);
      Requeue(idx, tab.nodes[tab.nodes[idx].parentDir].idOrLength, it);
      PlacedAnew(nodes, a, tab.nodes, idx, p);
      SameButWhere(old(live), k, Item(Cursor(old(log.h)), it.e));
      ParentedMoves(nodes, tab.nodes, key, old(live), live);
    }

    // The live nodes of a section.
    ghost function Here(slot: nat): set<nat>
      reads this, tab
    {
      set i | i in key && i < |tab.nodes| && tab.nodes[i].section == slot
    }

    // One turn of node_list_copy's loop
    method CopyHead(slot: nat)
      requires Valid() && Parented(tab.nodes, key, live) && slot == Phys(log.lo) && log.lo + 1 < |log.h|
      requires tab.list[slot].head != NIL && tab.list[slot].size <= log.free_bytes
      modifies log`free_bytes, log`tail_available_offset, log`tail_section, log`tail_count, log`h
      modifies log.cache, log.cache.buf, log.cache.nvm, tab`nodes, tab`list, tab`lst
      modifies this`items, this`live, this`who, this`key, this`skip, this`top
      ensures Valid() && Parented(tab.nodes, key, live) && log.lo + 1 < |log.h|
      ensures who == old(who) && key == old(key) && skip == old(skip) && top == old(top)
      ensures SameEntries(old(live), live) && SameButPlace(old(tab.nodes), tab.nodes)
      ensures Here(slot) < old(Here(slot))
      ensures log.free_bytes - tab.list[slot].size == old(log.free_bytes - tab.list[slot].size)
      ensures Sum(tab.list) == Sum(old(tab.list))
    {
      hide LogStore.Valid, LogOk, IndexOk, ListsOk, Wf, NodeMatches;
      HeadOfList(tab.nodes, tab.list, tab.lst, who, key, live, slot);
      var idx := tab.list[slot].head;
      WhereListed(tab.nodes, tab.lst, who, key, live, idx);
      CursorAway(tab.nodes[idx].Length());
      NodeCopy(idx);
      assert idx in old(Here(slot)) && idx !in Here(slot);
    }

    // The next node does not go to the oldest section.
    lemma CursorAway(length: nat)
      requires log.Valid() && log.lo + 1 < |log.h| && 0 < length <= log.free_bytes
      ensures Phys(Cursor(log.h).k) != Phys(log.lo)
    {
      var k := Cursor(log.h).k;
      if TailOffset(log.h) == S {
        FreeNeedsSection(log.h, log.lo);
      }
      if Phys(k) == Phys(log.lo) {
        PhysInjective(log.lo, k);
      }
    }

    // node_list_copy on the oldest section
    method SectionCopy(slot: nat)
      requires Valid() && Parented(tab.nodes, key, live) && slot == Phys(log.lo) && log.lo + 1 < |log.h|
      requires tab.list[slot].size <= log.free_bytes
      modifies log`free_bytes, log`tail_available_offset, log`tail_section, log`tail_count, log`h
      modifies log.cache, log.cache.buf, log.cache.nvm, tab`nodes, tab`list, tab`lst
      modifies this`items, this`live, this`who, this`key, this`skip, this`top
      ensures Valid() && Parented(tab.nodes, key, live) && log.lo + 1 < |log.h|
      ensures who == old(who) && key == old(key) && skip == old(skip) && top == old(top)
      ensures SameEntries(old(live), live) && SameButPlace(old(tab.nodes), tab.nodes)
      ensures log.free_bytes >= old(log.free_bytes - tab.list[slot].size)
      ensures Sum(tab.list) == Sum(old(tab.list))
      ensures forall k :: k in live ==> live[k].at.k != log.lo
    {
      hide LogStore.Valid, LogOk, IndexOk, ListsOk, Wf;
      while tab.list[slot].head != NIL
        invariant Valid() && Parented(tab.nodes, key, live) && log.lo + 1 < |log.h|
        invariant who == old(who) && key == old(key) && skip == old(skip) && top == old(top)
        invariant SameEntries(old(live), live) && SameButPlace(old(tab.nodes), tab.nodes)
        invariant log.free_bytes - tab.list[slot].size == old(log.free_bytes - tab.list[slot].size)
        invariant Sum(tab.list) == Sum(old(tab.list))
        decreases Here(slot)
      {
        CopyHead(slot);
      }
      HeadOfList(tab.nodes, tab.list, tab.lst, who, key, live, slot);
      NoneInSection(tab.nodes, who, key, live, tab.lst, log.lo);
    }

    // data_write_through
    method WriteThrough() returns (padding: nat)
      requires Valid()
      modifies log`free_bytes, log`tail_available_offset, log`h, log.cache, log.cache.buf, log.cache.nvm
      ensures Valid() && padding < PAGE && log.free_bytes == old(log.free_bytes) - padding
      ensures old(log.tail_available_offset) % PAGE == 0 ==> padding == 0
      ensures log.h == Padded(old(log.h)) && |log.h| == |old(log.h)| && log.tail_available_offset % PAGE == 0
      ensures log.cache.idx == 0 && log.cache.View() == log.cache.nvm.mem
    {
      hide LogStore.Valid, LogOk, IndexOk, ListsOk, Wf;
      log.IsWf();
      LogPads(log.h, log.lo, items, live, skip);
      padding := log.DataWriteThrough();
      log.IsWf();
    }

    // Section and offset of byte `i` of a node.
    ghost function ByteAddr(a: Addr, i: nat): Addr {
      if a.off + i < S then Addr(a.k, a.off + i) else Addr(a.k + 1, a.off + i - S + HEAD)
    }

    // When the oldest section is to be erased, every byte of every live node is on flash, outside it.
    lemma EraseIsSafe(k: Key, i: nat)
      requires Valid() && log.cache.idx == 0 && k in live && live[k].at.k != log.lo && i < Total(live[k].e)
      ensures var a := ByteAddr(live[k].at, i);
              && At(a.k, a.off) < |log.cache.nvm.mem|
              && !(SlotBase(log.head_section) <= At(a.k, a.off) < SlotBase(log.head_section) + S)
              && log.cache.nvm.mem[At(a.k, a.off)] == Bytes(live[k].e)[i]
    {
      hide LogOk, Agreed, Bytes, ByteAddr, At, Holds;
      Parts();
      var a := ByteAddr(live[k].at, i);
      NodeByte(log.h, log.lo, items, live, skip, k, i);
      log.IsWf();
      FlashHolds(a);
      OutsideHead(log.lo, a.k, a.off);
    }

    // Every byte of every live node is on flash, and outside the section that is erased next.
    ghost predicate SafeToErase()
      reads this, log, log.cache.nvm, log.cache
    {
      forall k, i {:trigger Bytes(live[k].e)[i]} | k in live && 0 <= i < Total(live[k].e) ::
        var a := ByteAddr(live[k].at, i);
        && At(a.k, a.off) < |log.cache.nvm.mem|
        && !(SlotBase(log.head_section) <= At(a.k, a.off) < SlotBase(log.head_section) + S)
        && log.cache.nvm.mem[At(a.k, a.off)] == Bytes(live[k].e)[i]
    }

    lemma NothingIsLost()
      requires Valid() && log.cache.idx == 0 && forall k :: k in live ==> live[k].at.k != log.lo
      ensures SafeToErase()
    {
      hide Store.Valid, Bytes, ByteAddr, At, SlotBase, Total;
      forall k, i: nat | k in live && i < Total(live[k].e)
        ensures var a := ByteAddr(live[k].at, i);
                && At(a.k, a.off) < |log.cache.nvm.mem|
                && !(SlotBase(log.head_section) <= At(a.k, a.off) < SlotBase(log.head_section) + S)
                && i < |Bytes(live[k].e)| && log.cache.nvm.mem[At(a.k, a.off)] == Bytes(live[k].e)[i]
      {
        EraseIsSafe(k, i);
      }
    }

    lemma FlashHolds(a: Addr)
      requires log.Valid() && log.cache.idx == 0 && log.lo <= a.k < log.lo + N && a.off < S
      ensures At(a.k, a.off) < |log.cache.nvm.mem| && log.cache.nvm.mem[At(a.k, a.off)] == ByteAt(log.h, a.k, a.off)
    {
      assert log.cache.View() == log.cache.nvm.mem;
      assert log.cache.Now().view[At(a.k, a.off)] == ByteAt(log.h, a.k, a.off);
    }

    lemma OutsideHead(lo: nat, k: nat, off: nat)
      requires lo < k < lo + N && off < S
      ensures !(SlotBase(Phys(lo)) <= At(k, off) < SlotBase(Phys(lo)) + S)
    {
      var q := At(k, off) - SlotBase(Phys(lo));
      if 0 <= q < S {
        AtApart(lo, k, off, lo, q);
      }
    }

    lemma NodeByte(h: History, lo: nat, items: Items, live: Live, skip: set<Key>, k: Key, i: nat)
      requires LogOk(h, lo, items, live, skip) && k in live && live[k].at.k != lo && i < Total(live[k].e)
      ensures var a := ByteAddr(live[k].at, i);
              && lo < a.k < |h| && HEAD <= a.off < S && ByteAt(h, a.k, a.off) == Bytes(live[k].e)[i]
    {
      hide LogOk, Bytes, NodeAt, Wf;
      LiveNode(h, lo, items, live, skip, k);
      ByteOfNode(h, live[k], i);
    }

    lemma ByteOfNode(h: History, it: Item, i: nat)
      requires NodeAt(h, it) && i < Total(it.e)
      ensures var a := ByteAddr(it.at, i);
              && it.at.k <= a.k < |h| && HEAD <= a.off < S && ByteAt(h, a.k, a.off) == Bytes(it.e)[i]
    {
      hide Bytes, Metadata, Body;
      assert BytesAt(h, it.at, Total(it.e))[i] == Bytes(it.e)[i];
    }

    // The oldest section, with no live node left in it, is erased and head_section moves past it.
    method ReclaimHead()
      requires Valid() && log.cache.idx == 0 && log.lo + 1 < |log.h|
      requires forall k :: k in live ==> live[k].at.k != log.lo
      requires SafeToErase()
      modifies log`free_bytes, log`head_section, log`lo, log.cache.nvm
      ensures Valid() && log.lo == old(log.lo) + 1 && log.free_bytes == old(log.free_bytes) + C
    {
      hide LogStore.Valid, LogOk, IndexOk, ListsOk, Wf, SafeToErase;
      LogDrops(log.h, log.lo, items, live, skip);
      IdsDrop(log.h, log.lo, items, live, skip, top);
      log.Reclaim();
    }

    // section_garbage_collection of the oldest section
    method SectionGarbageCollection()
      requires Valid() && Parented(tab.nodes, key, live) && log.lo + 1 < |log.h|
      requires tab.list[log.head_section].size + PAGE <= log.free_bytes
      modifies log`free_bytes, log`tail_available_offset, log`tail_section, log`tail_count, log`head_section
      modifies log`h, log`lo, log.cache, log.cache.buf, log.cache.nvm, tab`nodes, tab`list, tab`lst
      modifies this`items, this`live, this`who, this`key, this`skip, this`top
      ensures Valid() && Parented(tab.nodes, key, live) && log.lo == old(log.lo) + 1
      ensures who == old(who) && key == old(key) && skip == old(skip) && top == old(top)
      ensures SameEntries(old(live), live) && SameButPlace(old(tab.nodes), tab.nodes)
      ensures log.free_bytes > old(log.free_bytes) - old(tab.list[log.head_section].size) - PAGE + C
      ensures Sum(tab.list) == Sum(old(tab.list))
    {
      hide LogStore.Valid, LogOk, IndexOk, ListsOk, Wf, Agreed, SafeToErase;
      log.IsWf();
      SectionCopy(log.head_section);
      var _ := WriteThrough();
      NothingIsLost();
      ReclaimHead();
    }

    // What the log keeps free between operations: a section's worth, less what a write-through may pad, and
    // so an erased section.
    ghost predicate Roomy()
      reads log
    {
      && log.free_bytes > C - PAGE + 1 && (log.tail_available_offset % PAGE != 0 ==> log.free_bytes > C)
      && |log.h| < log.lo + N
    }

    // What the first `n` sections from `section` on would release: their bytes that are not live.
    function Released(section: nat, n: nat): int
      requires section < N == |tab.list|
      reads tab
      decreases n
    {
      if n == 0 then 0 else C - tab.list[section].size + Released(Next(section), n - 1)
    }

    lemma {:induction false} ReleasedOneMore(section: nat, n: nat, last: nat)
      requires section < N == |tab.list| && last == After(section, n)
      ensures last < N && Released(section, n + 1) == Released(section, n) + C - tab.list[last].size
      decreases n
    {
      if n > 0 {
        ReleasedOneMore(Next(section), n - 1, last);
      }
    }

    function After(section: nat, n: nat): nat
      requires section < N
      decreases n
    {
      if n == 0 then section else After(Next(section), n - 1)
    }

    lemma {:induction false} AfterNext(section: nat, n: nat)
      requires section < N
      ensures After(section, n) < N && After(section, n + 1) == Next(After(section, n))
      decreases n
    {
      if n > 0 {
        AfterNext(Next(section), n - 1);
      }
    }

    // section_wipe_check: the least number of sections whose dead bytes exceed `size`, if all together do.
    method SectionWipeCheck(size: nat) returns (wipe: bool, num: nat)
      requires log.head_section < N && |tab.list| == N
      ensures wipe ==> 0 < num <= N && Released(log.head_section, num) > size
      ensures forall m :: 0 < m < (if wipe then num else N + 1) ==> Released(log.head_section, m) <= size
    {
      hide Released, After;
      var released := 0;
      var section: nat := log.head_section;
      var i := 0;
      num := 0;
      NothingReleased(section);
      while i < N
        invariant i <= N && section == After(log.head_section, i) && section < N
        invariant released == Released(log.head_section, i)
        invariant forall m :: 0 < m <= i ==> Released(log.head_section, m) <= size
      {
        ReleasedOneMore(log.head_section, i, section);
        AfterNext(log.head_section, i);
        released := released + C - tab.list[section].size;
        if released > size {
          return true, i + 1;
        }
        section := Next(section);
        i := i + 1;
      }
      wipe := false;
    }

    lemma NothingReleased(section: nat)
      requires section < N == |tab.list|
      ensures Released(section, 0) == 0 && After(section, 0) == section && Released(section, 1) == C - tab.list[section].size
    {
    }

    // garbage_collect_try.  With room for the live nodes twice over, the collector's own assertions hold, one
    // section is collected at most, and the bytes asked for can be written with a section to spare.  Where there
    // is room already, or only the tail's section to collect, nothing is collected.
    method GarbageCollectTry(size: nat)
      requires Valid() && Parented(tab.nodes, key, live) && Roomy() && 2 * Sum(tab.list) + size + 2 * PAGE <= C
      modifies log`free_bytes, log`tail_available_offset, log`tail_section, log`tail_count, log`head_section
      modifies log`h, log`lo, log.cache, log.cache.buf, log.cache.nvm, tab`nodes, tab`list, tab`lst
      modifies this`items, this`live, this`who, this`key, this`skip, this`top
      ensures Valid() && Parented(tab.nodes, key, live) && old(log.lo) <= log.lo <= old(log.lo) + 1
      ensures who == old(who) && key == old(key) && skip == old(skip) && top == old(top)
      ensures SameEntries(old(live), live) && SameButPlace(old(tab.nodes), tab.nodes)
      ensures log.free_bytes > size + C
      ensures Sum(tab.list) == Sum(old(tab.list))
      ensures log.lo == old(log.lo) <==>
                old(log.free_bytes > size + tab.list[log.head_section].size + C || log.head_section == log.tail_section)
      ensures log.lo == old(log.lo) ==>
                && log.h == old(log.h) && log.free_bytes == old(log.free_bytes) && log.head_section == old(log.head_section)
                && live == old(live) && items == old(items)
                && tab.nodes == old(tab.nodes) && tab.list == old(tab.list) && tab.lst == old(tab.lst)
    {
      hide LogStore.Valid, LogOk, IndexOk, ListsOk, Wf;
      log.InUse();
      SumPuts(tab.list, tab.list, log.head_section);
      var wipe, num := SectionWipeCheck(size);
      NothingReleased(log.head_section);
      assert wipe && num == 1;
      var i := 0;
      while log.free_bytes <= size + tab.list[log.head_section].size + C && log.head_section != log.tail_section
        invariant i <= 1 && log.head_section < N
        invariant Valid() && Parented(tab.nodes, key, live) && log.lo == old(log.lo) + i
        invariant who == old(who) && key == old(key) && skip == old(skip) && top == old(top)
        invariant SameEntries(old(live), live) && SameButPlace(old(tab.nodes), tab.nodes)
        invariant Sum(tab.list) == Sum(old(tab.list))
        invariant i == 0 ==> Roomy() && log.h == old(log.h) && log.free_bytes == old(log.free_bytes)
        invariant i == 0 ==> log.head_section == old(log.head_section) && log.tail_section == old(log.tail_section)
        invariant i == 0 ==> live == old(live) && items == old(items)
        invariant i == 0 ==> tab.nodes == old(tab.nodes) && tab.list == old(tab.list) && tab.lst == old(tab.lst)
        invariant i == 1 ==> old(log.free_bytes <= size + tab.list[log.head_section].size + C && log.head_section != log.tail_section)
        invariant i == 1 ==> log.free_bytes > size + tab.list[log.head_section].size + C
        decreases 1 - i
      {
        assert i <= num;
        log.InUse();
        SumPuts(tab.list, tab.list, log.head_section);
        SectionGarbageCollection();
        log.InUse();
        SumPuts(tab.list, tab.list, log.head_section);
        i := i + 1;
      }
      log.InUse();
    }

    // dir_add_write of a new directory, which is then listed
    method AddDir(idx: nat, name: u16, id: u16, parent: u16)
      requires Valid() && 9 <= log.free_bytes && idx !in key && ROOT < idx < POOL && Dir(id) !in live
      requires var n := tab.nodes[idx]; n.IsDir() && n.name == name && n.idOrLength == id
      requires |live| + 1 + |skip - {Dir(id)}| <= POOL - 1
      modifies log`free_bytes, log`tail_available_offset, log`tail_section, log`tail_count, log`h
      modifies log.cache, log.cache.buf, log.cache.nvm, tab`nodes, tab`list, tab`lst
      modifies this`items, this`live, this`who, this`key, this`skip, this`top
      ensures Valid() && log.free_bytes == old(log.free_bytes) - 9
      ensures Added(old(live), live, old(key), key, idx, DirAdd(name, parent, id)) && skip == old(skip) - {Dir(id)}
      ensures top == if old(top) < id then id else old(top)
      ensures SameButPlace(old(tab.nodes), tab.nodes) && Sum(tab.list) == Sum(old(tab.list)) + 9
    {
      hide LogStore.Valid, LogOk, IndexOk, ListsOk, Bytes, Append, Cursor, Wf, IdsBelow, Flat, Phys;
      hide Store.Valid, Agreed, Wrote, SameButAdjacent, SameButPlace, Added, NodeMatches;
      Parts();
      log.IsWf();
      ghost var h0, l, k, a, e := log.h, live, key, tab.nodes, DirAdd(name, parent, id);
      var section, offset := DirAddWrite(log, name, id, parent);
      Writes(h0, e);
      DirMatches(a[idx], section, offset, Item(Cursor(h0), e));
      Attach(idx, section, offset, h0, e);
      ItIsRequeued(a, tab.nodes, idx, section, offset);
      RequeuedIs(a, tab.nodes, idx, section);
      AddedIs(l, k, idx, Item(Cursor(h0), e));
    }

    // record_add_write and record_data_write of a record, which is then listed
    method AddRecord(idx: nat, name: u16, parent: u16, data: Payload)
      requires Valid() && |data| + 11 <= log.free_bytes && |data| + 11 <= C
      requires idx !in key && ROOT < idx < POOL && Rec(parent, name) !in live
      requires var n := tab.nodes[idx]; !n.IsDir() && n.name == name && n.idOrLength == |data|
      requires |live| + 1 + |skip - {Rec(parent, name)}| <= POOL - 1
      modifies log`free_bytes, log`tail_available_offset, log`tail_section, log`tail_count, log`h
      modifies log.cache, log.cache.buf, log.cache.nvm, tab`nodes, tab`list, tab`lst
      modifies this`items, this`live, this`who, this`key, this`skip, this`top
      ensures Valid() && log.free_bytes == old(log.free_bytes) - |data| - 11
      ensures Added(old(live), live, old(key), key, idx, RecordAdd(name, parent, data))
      ensures skip == old(skip) - {Rec(parent, name)} && top == old(top)
      ensures SameButPlace(old(tab.nodes), tab.nodes) && Sum(tab.list) == Sum(old(tab.list)) + |data| + 11
    {
      hide LogStore.Valid, LogOk, IndexOk, ListsOk, Bytes, Append, Cursor, Wf, Metadata, Body, IdsBelow, Flat, Phys;
      hide Store.Valid, Agreed, Wrote, SameButAdjacent, SameButPlace, Added, NodeMatches;
      Parts();
      log.IsWf();
      ghost var h0, l, k, a, e := log.h, live, key, tab.nodes, RecordAdd(name, parent, data);
      var section, offset := RecordAddWrite(log, name, parent, |data|, e);
      ghost var h1 := log.h;
      RecordDataWrite(log, data, e);
      PiecesMakeNode(h0, h1, log.h, e);
      Writes(h0, e);
      RecordMatches(a[idx], section, offset, Item(Cursor(h0), e));
      Attach(idx, section, offset, h0, e);
      ItIsRequeued(a, tab.nodes, idx, section, offset);
      RequeuedIs(a, tab.nodes, idx, section);
      AddedIs(l, k, idx, Item(Cursor(h0), e));
    }

    // record_remove_write or dir_remove_write for a live node
    method Tombstone(idx: nat, parent: u16) returns (ghost e: Entry)
      requires Valid() && idx in key && 7 <= log.free_bytes
      requires live[key[idx]].e.parent == parent
      modifies log`free_bytes, log`tail_available_offset, log`tail_section, log`tail_count, log`h
      modifies log.cache, log.cache.buf, log.cache.nvm
      ensures Wrote(old(log.h), e) && !IsAdd(e) && KeyOf(e) == key[idx]
      ensures log.free_bytes >= old(log.free_bytes) - (if tab.nodes[idx].IsDir() then 5 else 7)
    {
      hide LogStore.Valid, LogOk, IndexOk, ListsOk, Bytes, Append, Wf;
      log.IsWf();
      WhereListed(tab.nodes, tab.lst, who, key, live, idx);
      var n := tab.nodes[idx];
      if n.IsDir() {
        DirRemoveWrite(log, n.idOrLength);
        e := DirRemove(n.idOrLength);
      } else {
        RecordRemoveWrite(log, n.name, parent);
        e := RecordRemove(n.name, parent);
      }
    }

    method RelinkWrote(b: seq<Node>, ghost h0: History, ghost e: Entry)
      requires Wrote(h0, e) && |b| == POOL && ListsOk(b, tab.list, tab.lst) && IndexOk(b, tab.lst, who, key, live)
      modifies tab`nodes
      ensures Wrote(h0, e) && tab.nodes == b
    {
      hide LogStore.Valid, LogOk, IndexOk, ListsOk, Wf, Append, Bytes;
      tab.nodes := b;
    }

    // tinyfs_list_del of a node whose tombstone has been written
    method Forget(idx: nat, ghost h0: History, ghost e: Entry)
      requires Wrote(h0, e) && !IsAdd(e) && idx in key && KeyOf(e) == key[idx] && |live| + |skip| <= POOL - 1
      modifies tab`nodes, tab`list, tab`lst, this`items, this`live, this`who, this`key, this`skip
      ensures Valid() && SameButAdjacent(old(tab.nodes), tab.nodes)
      ensures live == old(live) - {old(key)[idx]} && key == old(key) - {idx} && skip == old(skip) - {old(key)[idx]}
      ensures Sum(tab.list) == Sum(old(tab.list)) - old(tab.nodes)[idx].Length()
    {
      hide LogStore.Valid, LogOk, IndexOk, ListsOk, NodeMatches, Bytes, Append, Cursor, Wf, IdsBelow, Flat;
      hide Wrote, Store.Valid, Agreed, AddItem, Apply;
      ghost var a, list, lst, k := tab.nodes, tab.list, tab.lst, key[idx];
      WroteParts(h0, e);
      ApplyDrops(live, Item(Cursor(h0), e));
      WhereListed(a, lst, who, key, live, idx);
      Forgotten(live, skip, e);
      LogTakes(h0, log.lo, items, live, skip, e);
      IdsTake(h0, log.lo, items, live, skip, e, top);
      var p := tab.nodes[idx].section;
      var del, j := tab.TinyListDel(p, idx);
      IndexDetaches(a, tab.nodes, list, lst, who, key, live, idx, p, j);
      SumPuts(list, tab.list, p);
      items := AddItem(items, |log.h|, Item(Cursor(h0), e));
      live, skip, who, key := live - {k}, skip - {k}, who - {k}, key - {idx};
      Whole();
    }
  }
}