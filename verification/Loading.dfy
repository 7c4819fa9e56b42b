// Mount: the nodes of the log are read back into memory (dev/module/tinyfs/tinyfs.c:215-234, 298-314, 423-512, 542-585).
module Loading {
  import opened Nor
  import opened Ring
  import opened Layout
  import opened LogWriter
  import opened Codec
  import opened MountWalk
  import opened LogReplay
  import opened Nodes
  import opened Table
  import opened Index
  import opened Collector
  import opened Tree
  import opened Building
  import opened Discovery
  import opened Pool
  import Crc16

  // ---- Reading the log ----

  lemma MetadataStarts(h: History, it: Item)
    requires Wf(h) && NodeAt(h, it)
    ensures var n := MetadataLength(it.e);
            n <= METADATA_MAX && Present(h, it.at, n) && BytesAt(h, it.at, n) == Metadata(it.e)
  {
    hide BytesAt, Present, Check;
    SliceOf(h, it.at, Total(it.e), 0, MetadataLength(it.e));
    assert Bytes(it.e)[0..MetadataLength(it.e)] == Metadata(it.e);
  }

  // node_metadata_read: a node's metadata, or nothing readable where there is no node.
  method NodeMetadataRead(log: LogStore, section: nat, offset: nat, ghost k: nat, ghost it: Item) returns (head: Head)
    requires log.Readable() && log.cache.idx == 0 && log.lo <= k < log.lo + N && section == Phys(k) && HEAD <= offset < S
    ensures NodeAt(log.h, it) && it.at == Addr(k, offset) ==> head == HeadOf(it.e)
    ensures ByteAt(log.h, k, offset) == ERASED ==> head == Unreadable
  {
    assert Wf(log.h);
    hide LogStore.Readable, Wf, NodeAt, Check;
    var buf := log.NvmReadNode(section, offset, METADATA_MAX, k);
    head := ReadHead(buf);
    if ByteAt(log.h, k, offset) == ERASED {
      ErasedIsUnreadable(buf);
    }
    if NodeAt(log.h, it) && it.at == Addr(k, offset) {
      MetadataStarts(log.h, it);
      ReadHeadInverts(it.e, buf);
    }
  }

  // nvm_page_empty
  method NvmPageEmpty(log: LogStore, section: nat, offset: nat, ghost k: nat) returns (empty: bool)
    requires log.Readable() && log.cache.idx == 0 && log.lo <= k < log.lo + N && section == Phys(k)
    requires offset % PAGE == 0 && offset + PAGE <= S
    ensures empty <==> forall off :: offset <= off < offset + PAGE ==> ByteAt(log.h, k, off) == ERASED
  {
    hide LogStore.Readable;
    var page := log.ReadSection(section, offset, PAGE, k);
    empty := true;
    var i := 0;
    while i < PAGE
      invariant 0 <= i <= PAGE && empty && forall j :: 0 <= j < i ==> page[j] == ERASED
    {
      if page[i] != ERASED {
        assert ByteAt(log.h, k, offset + i) != ERASED;
        return false;
      }
      i := i + 1;
    }
    forall off | offset <= off < offset + PAGE
      ensures ByteAt(log.h, k, off) == ERASED
    {
      assert page[off - offset] == ByteAt(log.h, k, offset + (off - offset));
    }
  }

  // ---- Headers ----

  lemma HeaderReads(h: History, items: Items, k: nat, head: seq<byte>)
    requires Walks(h, items) && k < |h| && HEAD <= |h[k]| && head == h[k][..HEAD]
    ensures U16(head, 4) == Crc16.Ccitt(0x5555, head[..4]) && U16(head, 0) == LoopCount(k) && U16(head, 2) == FirstNode(h, k)
  {
    assert SectionWalks(h, k, items[k]);
    var count, first := LoopCount(k), FirstNode(h, k);
    assert head == HeadBytes(count, first);
    assert head[..4] == Le16(count) + Le16(first);
    assert head[4] == Le16(Crc16.Ccitt(0x5555, head[..4]))[0] && head[5] == Le16(Crc16.Ccitt(0x5555, head[..4]))[1];
  }

  lemma ErasedHeader(head: seq<byte>)
    requires |head| == HEAD && forall i :: 0 <= i < HEAD ==> head[i] == ERASED
    ensures U16(head, 4) != Crc16.Ccitt(0x5555, head[..4])
  {
    assert head[..4] == [0xff, 0xff, 0xff, 0xff];
    Crc16.ErasedHeaderFails();
  }

  // section_head_read: the header is valid exactly when its section is in the log.
  method SectionHeadRead(log: LogStore, slot: nat, ghost items: Items) returns (valid: bool, data: HeadData)
    requires log.Readable() && log.cache.idx == 0 && slot < N && Walks(log.h, items)
    ensures valid <==> InSlot(log.lo, slot) < |log.h|
    ensures valid ==> var k := InSlot(log.lo, slot);
                      HEAD <= |log.h[k]| && data == HeadData(LoopCount(k), FirstNode(log.h, k))
  {
    ghost var k := InSlot(log.lo, slot);
    InSlotIsThere(log.lo, slot);
    if k < |log.h| {
      assert SectionWalks(log.h, k, items[k]);
    }
    hide LogStore.Readable, Walks, SectionWalks, Crc16.Ccitt;
    var head := log.ReadSection(slot, 0, HEAD, k);
    valid := U16(head, 4) == Crc16.Ccitt(0x5555, head[..4]);
    data := HeadData(U16(head, 0), U16(head, 2));
    if k < |log.h| {
      HeaderReads(log.h, items, k, head);
    } else {
      ErasedHeader(head);
    }
  }

  // section_head_read_all
  method SectionHeadReadAll(log: LogStore, ghost items: Items) returns (heads: seq<HeadData>, valid: seq<bool>)
    requires log.Readable() && log.cache.idx == 0 && Walks(log.h, items)
    ensures |heads| == |valid| == N
    ensures forall slot :: 0 <= slot < N ==> (valid[slot] <==> InSlot(log.lo, slot) < |log.h|)
    ensures forall slot :: 0 <= slot < N && valid[slot] ==>
              var k := InSlot(log.lo, slot);
              HEAD <= |log.h[k]| && heads[slot] == HeadData(LoopCount(k), FirstNode(log.h, k))
  {
    hide LogStore.Readable, Walks, FirstNode, LoopCount;
    heads, valid := [], [];
    var i := 0;
    while i < N
      invariant i == |heads| == |valid| <= N
      invariant forall slot :: 0 <= slot < i ==> (valid[slot] <==> InSlot(log.lo, slot) < |log.h|)
      invariant forall slot :: 0 <= slot < i && valid[slot] ==>
                  var k := InSlot(log.lo, slot);
                  HEAD <= |log.h[k]| && heads[slot] == HeadData(LoopCount(k), FirstNode(log.h, k))
    {
      var ok, data := SectionHeadRead(log, i, items);
      heads, valid := heads + [data], valid + [ok];
      i := i + 1;
    }
  }

  // ---- Loading a node ----

  // Memory as the replay has left it after the nodes `s`.
  ghost predicate Replaying(nodes: seq<Node>, list: seq<TinyList>, lst: seq<seq<nat>>,
                            who: map<Key, nat>, key: map<nat, Key>, m: Live)
  {
    && |nodes| == POOL && |list| == |lst| == N
    && ListsOk(nodes, list, lst) && IndexOk(nodes, lst, who, key, m) && Loaded(nodes, key, m)
  }

  // record_compare and dir_compare find the node of a key.
  lemma FoundIs(nodes: seq<Node>, list: seq<TinyList>, lst: seq<seq<nat>>, who: map<Key, nat>, key: map<nat, Key>, m: Live,
                w: Wanted, found: nat, p: nat)
    requires Replaying(nodes, list, lst, who, key, m) && p < N && found in lst[p] && found < POOL && Matches(nodes[found], w)
    ensures found in key && key[found] == KeyWanted(w) && key[found] in m && nodes[found].section == p && ROOT < found
  {
    assert ListOk(nodes, list[p], lst[p], p);
    WhereListed(nodes, lst, who, key, m, found);
    MatchedDir(nodes[found], m[key[found]]);
  }

  lemma ThereIs(nodes: seq<Node>, list: seq<TinyList>, lst: seq<seq<nat>>, who: map<Key, nat>, key: map<nat, Key>, m: Live, w: Wanted)
    requires Replaying(nodes, list, lst, who, key, m) && KeyWanted(w) in m
    ensures exists p :: 0 <= p < N && !NoneMatches(nodes, lst[p], w)
  {
    hide ListsOk, NodeMatches;
    var x := who[KeyWanted(w)];
    WhereListed(nodes, lst, who, key, m, x);
    MatchedDir(nodes[x], m[key[x]]);
    assert nodes[x].parentDir == m[key[x]].e.parent;
    hide IndexOk, Loaded;
    assert Matches(nodes[x], w) && x in lst[nodes[x].section];
  }

  lemma NotFoundIs(nodes: seq<Node>, list: seq<TinyList>, lst: seq<seq<nat>>, who: map<Key, nat>, key: map<nat, Key>, m: Live, w: Wanted)
    requires Replaying(nodes, list, lst, who, key, m) && forall p :: 0 <= p < N ==> NoneMatches(nodes, lst[p], w)
    ensures KeyWanted(w) !in m
  {
    hide NoneMatches, Replaying;
    if KeyWanted(w) in m {
      ThereIs(nodes, list, lst, who, key, m, w);
    }
  }

  function KeyWanted(w: Wanted): Key {
    match w
    case WantedRecord(parent, name) => Rec(parent, name)
    case WantedDir(id) => Dir(id)
  }

  lemma LoadedNode(nodes: seq<Node>, lst: seq<seq<nat>>, who: map<Key, nat>, key: map<nat, Key>, m: Live,
                   found: nat, w: Wanted, list: seq<TinyList>, p: nat)
    requires Replaying(nodes, list, lst, who, key, m) && p < N && found in lst[p] && found < POOL && Matches(nodes[found], w)
    ensures nodes[found].nextSibling == NIL && (nodes[found].child == 0 || nodes[found].child == NIL)
  {
    hide ListsOk;
    WhereListed(nodes, lst, who, key, m, found) by {
      FoundIs(nodes, list, lst, who, key, m, w, found, p);
    }
  }

  // node_search for a key
  method SearchKey(tab: NodeTable, w: Wanted, ghost who: map<Key, nat>, ghost key: map<nat, Key>, ghost m: Live) returns (found: nat)
    requires Replaying(tab.nodes, tab.list, tab.lst, who, key, m)
    ensures (found == NIL <==> KeyWanted(w) !in m) && |tab.nodes| == POOL
    ensures found != NIL ==> ROOT < found < POOL && found in key && key[found] == KeyWanted(w)
    ensures found != NIL ==> var n := tab.nodes[found];
                             Matches(n, w) && n.nextSibling == NIL && (n.child == 0 || n.child == NIL)
  {
    hide IndexOk, ListsOk, Loaded, Matches, NoneMatches;
    ghost var p;
    found, p := tab.NodeSearch(w);
    if found != NIL {
      LoadedNode(tab.nodes, tab.lst, who, key, m, found, w, tab.list, p);
      FoundIs(tab.nodes, tab.list, tab.lst, who, key, m, w, found, p);
    } else {
      NotFoundIs(tab.nodes, tab.list, tab.lst, who, key, m, w);
    }
  }

  lemma LoadedDrops(a: seq<Node>, b: seq<Node>, key: map<nat, Key>, m: Live, idx: nat, k: Key)
    requires Loaded(a, key, m) && SameButAdjacent(a, b)
    ensures Loaded(b, key - {idx}, m - {k})
  {
  }

  // tinyfs_list_del of a node that is listed under its section
  method Unlist(tab: NodeTable, idx: nat, ghost who: map<Key, nat>, ghost key: map<nat, Key>, ghost m: Live)
    requires Replaying(tab.nodes, tab.list, tab.lst, who, key, m) && idx in key && idx < POOL
    modifies tab`nodes, tab`list, tab`lst
    ensures SameButAdjacent(old(tab.nodes), tab.nodes)
    ensures Replaying(tab.nodes, tab.list, tab.lst, who - {key[idx]}, key - {idx}, m - {key[idx]})
  {
    hide IndexOk, ListsOk, Loaded, NodeMatches;
    ghost var a, list, lst := tab.nodes, tab.list, tab.lst;
    WhereListed(a, lst, who, key, m, idx);
    var del, j := tab.TinyListDel(tab.nodes[idx].section, idx);
    assert del;
    IndexDetaches(a, tab.nodes, list, lst, who, key, m, idx, a[idx].section, j);
    LoadedDrops(a, tab.nodes, key, m, idx, key[idx]);
  }

  lemma LoadedPuts(a: seq<Node>, b: seq<Node>, key: map<nat, Key>, m: Live, idx: nat, it: Item)
    requires Loaded(a, key, m) && |b| == |a| && ROOT < idx < POOL && KeyOf(it.e) !in m && IsAdd(it.e)
    requires forall i :: 0 <= i < |a| && i != idx ==> b[i] == a[i].(adjacent := b[i].adjacent)
    requires forall i :: i in key && i != idx ==> key[i] in m
    requires b[idx].parentDir == it.e.parent && (b[idx].child == 0 || b[idx].child == NIL) && b[idx].nextSibling == NIL
    ensures Loaded(b, key[idx := KeyOf(it.e)], m[KeyOf(it.e) := it])
  {
  }

  // The node's fields are set, and it is pushed to its section's list.
  method Relist(tab: NodeTable, idx: nat, n: Node, ghost it: Item, ghost who: map<Key, nat>, ghost key: map<nat, Key>, ghost m: Live)
    requires Replaying(tab.nodes, tab.list, tab.lst, who, key, m) && idx !in key && ROOT < idx < POOL
    requires KeyOf(it.e) !in m && NodeMatches(n, it) && n.section < N
    requires n.parentDir == it.e.parent && (n.child == 0 || n.child == NIL) && n.nextSibling == NIL
    modifies tab`nodes, tab`list, tab`lst
    ensures Replaying(tab.nodes, tab.list, tab.lst, who[KeyOf(it.e) := idx], key[idx := KeyOf(it.e)], m[KeyOf(it.e) := it])
  {
    hide IndexOk, ListsOk, Loaded, NodeMatches;
    ghost var a := tab.nodes;
    KeysLive(a, tab.lst, who, key, m);
    IndexIgnores(a, tab.list, tab.lst, who, key, m, idx, n);
    tab.nodes := tab.nodes[idx := n];
    ghost var b, lst := tab.nodes, tab.lst;
    PlaceOfMatch(n, it);
    tab.TinyListPush(n.section, idx);
    IndexPuts(b, tab.nodes, lst, who, key, m, idx, it);
    LoadedPuts(a, tab.nodes, key, m, idx, it);
  }

  lemma PlaceOfMatch(n: Node, it: Item)
    requires NodeMatches(n, it)
    ensures n.section == Phys(it.at.k) && n.offset == it.at.off && IsAdd(it.e)
  {
  }

  // ---- The parsers ----

  // The pool's held elements are the root and the nodes of the live keys.
  ghost predicate Pooled(tab: NodeTable, keys: set<nat>)
    reads tab.pool, tab.pool.refCnt
  {
    tab.Counted() && tab.pool.Held() == keys + {ROOT}
  }

  // A parser turns the memory for `m` into the memory for `m'`.
  ghost predicate Parsed(tab: NodeTable, who: map<Key, nat>, key: map<nat, Key>, m: Live)
    reads tab, tab.pool, tab.pool.refCnt
  {
    Replaying(tab.nodes, tab.list, tab.lst, who, key, m) && Pooled(tab, key.Keys)
  }

  // A node from the pool for a key that is not live yet; there is one as long as the pool is large enough.
  method NodeFromPool(tab: NodeTable, ghost who: map<Key, nat>, ghost key: map<nat, Key>, ghost m: Live) returns (idx: nat)
    requires Parsed(tab, who, key, m) && |m| < POOL - 1
    modifies tab.pool, tab.pool.refCnt
    ensures Replaying(tab.nodes, tab.list, tab.lst, who, key, m) && Pooled(tab, key.Keys + {idx})
    ensures ROOT < idx < POOL == |tab.nodes| && idx !in key
  {
    hide ListsOk, Loaded, IndexOk, NodeTable.Counted, Replaying, LinkedBuffer.Held;
    CountsLoaded(tab, who, key, m);
    var ok;
    idx, ok := tab.NodeAlloc();
    RootLast(key.Keys, idx);
  }

  lemma RootLast(keys: set<nat>, idx: nat)
    ensures keys + {idx} + {ROOT} == keys + {ROOT} + {idx}
  {
  }

  lemma CountsLoaded(tab: NodeTable, who: map<Key, nat>, key: map<nat, Key>, m: Live)
    requires Replaying(tab.nodes, tab.list, tab.lst, who, key, m)
    ensures |key.Keys + {ROOT}| == |m| + 1 && |tab.nodes| == POOL && forall i :: i in key.Keys <==> i in key
  {
    hide ListsOk, Loaded, IndexOk;
    LiveCounts(tab.nodes, tab.lst, who, key, m);
  }

  // The node of a key that is written anew.
  lemma PutAnew(who: map<Key, nat>, key: map<nat, Key>, m: Live, idx: nat, it: Item)
    requires idx in key && key[idx] == KeyOf(it.e) && KeyOf(it.e) in who && who[KeyOf(it.e)] == idx && IsAdd(it.e)
    ensures var k := KeyOf(it.e);
            && (m - {k})[k := it] == Apply(m, it) && (who - {k})[k := idx] == who && (key - {idx})[idx := k] == key
  {
  }

  lemma PutNew(m: Live, it: Item)
    requires KeyOf(it.e) !in m && IsAdd(it.e)
    ensures |Apply(m, it)| == |m| + 1
  {
    assert Apply(m, it).Keys == m.Keys + {KeyOf(it.e)};
    assert |m| == |m.Keys| && |Apply(m, it)| == |Apply(m, it).Keys|;
  }

  lemma WhoIs(tab: NodeTable, who: map<Key, nat>, key: map<nat, Key>, m: Live, idx: nat)
    requires Replaying(tab.nodes, tab.list, tab.lst, who, key, m) && idx in key
    ensures key[idx] in who && who[key[idx]] == idx
  {
    hide ListsOk, Loaded;
    WhereListed(tab.nodes, tab.lst, who, key, m, idx);
  }

  // A node that is there already is listed anew, as `n`.
  method Renew(tab: NodeTable, idx: nat, n: Node, ghost it: Item, ghost who: map<Key, nat>, ghost key: map<nat, Key>, ghost m: Live)
    requires Replaying(tab.nodes, tab.list, tab.lst, who, key, m) && ROOT < idx < POOL
    requires idx in key && key[idx] == KeyOf(it.e) && NodeMatches(n, it) && n.section < N
    requires n.parentDir == it.e.parent && (n.child == 0 || n.child == NIL) && n.nextSibling == NIL
    modifies tab`nodes, tab`list, tab`lst
    ensures Replaying(tab.nodes, tab.list, tab.lst, who, key, Apply(m, it))
  {
    hide Replaying, NodeMatches;
    ghost var k := key[idx];
    WhoIs(tab, who, key, m, idx);
    PlaceOfMatch(n, it);
    PutAnew(who, key, m, idx, it);
    Unlist(tab, idx, who, key, m);
    Relist(tab, idx, n, it, who - {k}, key - {idx}, m - {k});
  }

  method RecordAddParse(tab: NodeTable, section: nat, offset: nat, name: u16, parent: u16, length: u16,
                        ghost it: Item, ghost who: map<Key, nat>, ghost key: map<nat, Key>, ghost m: Live)
    returns (ghost who': map<Key, nat>, ghost key': map<nat, Key>)
    requires Parsed(tab, who, key, m) && it.e.RecordAdd? && HeadOf(it.e) == RecordHead(name, parent, length)
    requires section == Phys(it.at.k) && offset == it.at.off && |Apply(m, it)| <= POOL - 1
    modifies tab`nodes, tab`list, tab`lst, tab.pool, tab.pool.refCnt
    ensures Parsed(tab, who', key', Apply(m, it))
  {
    hide Replaying, Pooled;
    ghost var k := Rec(parent, name);
    var idx := SearchKey(tab, WantedRecord(parent, name), who, key, m);
    PhysBounds(it.at.k);
    if idx != NIL {
      Renew(tab, idx, tab.nodes[idx].(section := section, offset := offset, idOrLength := length), it, who, key, m);
      return who, key;
    }
    PutNew(m, it);
    idx := NodeFromPool(tab, who, key, m);
    var n := Node(section, offset, 0, tab.nodes[idx].adjacent, parent, NIL, name, length);
    Relist(tab, idx, n, it, who, key, m);
    assert (key[idx := k]).Keys == key.Keys + {idx};
    return who[k := idx], key[idx := k];
  }

  lemma PhysBounds(k: nat)
    ensures Phys(k) < N
  {
  }

  // dir_add_parse; the greatest id seen so far is kept.
  method DirAddParse(tab: NodeTable, section: nat, offset: nat, name: u16, parent: u16, id: u16, dirIdMax: u16,
                     ghost it: Item, ghost who: map<Key, nat>, ghost key: map<nat, Key>, ghost m: Live)
    returns (max: u16, ghost who': map<Key, nat>, ghost key': map<nat, Key>)
    requires Parsed(tab, who, key, m) && it.e == DirAdd(name, parent, id)
    requires section == Phys(it.at.k) && offset == it.at.off && |Apply(m, it)| <= POOL - 1
    modifies tab`nodes, tab`list, tab`lst, tab.pool, tab.pool.refCnt
    ensures Parsed(tab, who', key', Apply(m, it)) && max == if dirIdMax < id then id else dirIdMax
  {
    hide Replaying, Pooled;
    ghost var k := Dir(id);
    max := if dirIdMax < id then id else dirIdMax;
    var idx := SearchKey(tab, WantedDir(id), who, key, m);
    PhysBounds(it.at.k);
    if idx != NIL {
      Renew(tab, idx, tab.nodes[idx].(section := section, offset := offset, name := name, parentDir := parent), it, who, key, m);
      return max, who, key;
    }
    PutNew(m, it);
    idx := NodeFromPool(tab, who, key, m);
    var n := Node(section, offset, NIL, tab.nodes[idx].adjacent, parent, NIL, name, id);
    Relist(tab, idx, n, it, who, key, m);
    assert (key[idx := k]).Keys == key.Keys + {idx};
    return max, who[k := idx], key[idx := k];
  }

  // record_remove_parse and dir_remove_parse: a tombstone frees the node of its key, if there is one.
  method RemoveParse(tab: NodeTable, w: Wanted, ghost it: Item, ghost who: map<Key, nat>, ghost key: map<nat, Key>, ghost m: Live)
    returns (ghost who': map<Key, nat>, ghost key': map<nat, Key>)
    requires Parsed(tab, who, key, m) && !IsAdd(it.e) && KeyOf(it.e) == KeyWanted(w)
    modifies tab`nodes, tab`list, tab`lst, tab.pool, tab.pool.refCnt
    ensures Parsed(tab, who', key', Apply(m, it))
  {
    hide Replaying, Pooled, KeyWanted;
    ghost var k := KeyOf(it.e);
    var idx := SearchKey(tab, w, who, key, m);
    if idx == NIL {
      assert m - {k} == m;
      return who, key;
    }
    Unlist(tab, idx, who, key, m);
    FreeNodeOf(tab, key.Keys, idx);
    assert (key - {idx}).Keys == key.Keys - {idx};
    return who - {k}, key - {idx};
  }

  method FreeNodeOf(tab: NodeTable, ghost keys: set<nat>, idx: nat)
    requires Pooled(tab, keys) && idx in keys && idx != ROOT
    modifies tab.pool, tab.pool.refCnt
    ensures Pooled(tab, keys - {idx})
  {
    assert keys + {ROOT} - {idx} == keys - {idx} + {ROOT};
    tab.NodeFree(idx);
  }

  // The greatest directory id among the nodes.
  function MaxDirId(s: seq<Item>): nat {
    if s == [] then 0
    else var it, m := s[|s| - 1], MaxDirId(s[..|s| - 1]);
         if it.e.DirAdd? && m < it.e.id then it.e.id else m
  }

  lemma MaxDirIdOneMore(s: seq<Item>, it: Item)
    ensures MaxDirId(s + [it]) == if it.e.DirAdd? && MaxDirId(s) < it.e.id then it.e.id else MaxDirId(s)
  {
    assert (s + [it])[..|s|] == s;
  }

  lemma {:induction false} MaxDirIdCovers(s: seq<Item>, k: Key)
    requires k in Replay(s) && Replay(s)[k].e.DirAdd?
    ensures Replay(s)[k].e.id <= MaxDirId(s)
    decreases |s|
  {
    var s0, it := s[..|s| - 1], s[|s| - 1];
    if k != KeyOf(it.e) {
      MaxDirIdCovers(s0, k);
    }
  }

  lemma {:induction false} TopCovers(s: seq<Item>, top: nat)
    requires IdsBelow(s, top)
    ensures MaxDirId(s) <= top
    decreases |s|
  {
    if s != [] {
      var s0 := s[..|s| - 1];
      assert forall i :: 0 <= i < |s0| ==> s0[i] == s[i];
      TopCovers(s0, top);
    }
  }

  lemma {:induction false} MaxDirIdIsTop(s: seq<Item>)
    ensures IdsBelow(s, MaxDirId(s))
    decreases |s|
  {
    if s != [] {
      var s0 := s[..|s| - 1];
      MaxDirIdIsTop(s0);
      assert forall i :: 0 <= i < |s0| ==> s[i] == s0[i];
    }
  }

  // The parse of one node, by the type in its metadata.
  method Parse(tab: NodeTable, head: Head, section: nat, offset: nat, dirIdMax: u16,
               ghost it: Item, ghost who: map<Key, nat>, ghost key: map<nat, Key>, ghost s: seq<Item>)
    returns (length: nat, max: u16, ghost who': map<Key, nat>, ghost key': map<nat, Key>)
    requires Parsed(tab, who, key, Replay(s)) && head == HeadOf(it.e) && dirIdMax == MaxDirId(s)
    requires section == Phys(it.at.k) && offset == it.at.off && |Replay(s + [it])| <= POOL - 1
    modifies tab`nodes, tab`list, tab`lst, tab.pool, tab.pool.refCnt
    ensures Parsed(tab, who', key', Replay(s + [it])) && max == MaxDirId(s + [it]) && length == Total(it.e)
  {
    hide Replaying, Pooled, Replay, MaxDirId;
    ReplayOne(s, it);
    MaxDirIdOneMore(s, it);
    HeadKeepsLength(it.e);
    length, max := HeadTotal(head), dirIdMax;
    match head
    case RecordHead(name, parent, len) =>
      who', key' := RecordAddParse(tab, section, offset, name, parent, len, it, who, key, Replay(s));
    case DirHead(name, parent, id) =>
      max, who', key' := DirAddParse(tab, section, offset, name, parent, id, dirIdMax, it, who, key, Replay(s));
    case RecordGone(name, parent) =>
      who', key' := RemoveParse(tab, WantedRecord(parent, name), it, who, key, Replay(s));
    case DirGone(id) =>
      who', key' := RemoveParse(tab, WantedDir(id), it, who, key, Replay(s));
  }

  // ---- nodes_info_load ----

  // What the walk meets at `off`.
  lemma WalkMeets(h: History, k: nat, off: nat, rest: seq<Item>)
    requires k < |h| && off < S && Walk(h, k, off, rest)
    ensures off == |h[k]| ==> rest == []
    ensures off != |h[k]| ==> HEAD <= off < |h[k]|
    ensures off != |h[k]| && rest != [] && rest[0].at == Addr(k, off) ==>
              NodeAt(h, rest[0]) && Walk(h, k, off + Total(rest[0].e), rest[1..])
    ensures off != |h[k]| && !(rest != [] && rest[0].at == Addr(k, off)) ==>
              off % PAGE != 0 && ByteAt(h, k, off) == ERASED && PageEnd(off) <= |h[k]| && Walk(h, k, PageEnd(off), rest)
  {
    hide NodeAt;
  }

  // A section that the walk is in, and the nodes that are still to come.
  ghost predicate Walking(log: LogStore, k: nat, section: nat, off: nat, rest: seq<Item>)
    reads log`h, log`lo, log.cache, log.cache.buf, log.cache.nvm
  {
    && log.Readable() && log.cache.idx == 0 && TailOffset(log.h) % PAGE == 0
    && log.lo <= k < |log.h| && k < log.lo + N && section == Phys(k) && HEAD <= off
    && Walk(log.h, k, off, rest) && (k == |log.h| - 1 ==> off <= |log.h[k]|)
  }

  // Memory after the nodes `s`, with room in the pool for the nodes `rest`.
  ghost predicate Progress(tab: NodeTable, who: map<Key, nat>, key: map<nat, Key>, s: seq<Item>, rest: seq<Item>, max: nat)
    reads tab, tab.pool, tab.pool.refCnt
  {
    Parsed(tab, who, key, Replay(s)) && max == MaxDirId(s) && PoolFits(s + rest, POOL - 1)
  }

  lemma Shift(s: seq<Item>, rest: seq<Item>)
    requires rest != [] && PoolFits(s + rest, POOL - 1)
    ensures s + [rest[0]] + rest[1..] == s + rest && |Replay(s + [rest[0]])| <= POOL - 1
  {
    assert (s + rest)[..|s| + 1] == s + [rest[0]];
  }

  lemma EmptyPage(log: LogStore, k: nat, section: nat, off: nat, rest: seq<Item>)
    requires Walking(log, k, section, off, rest) && off < S
    ensures off == |log.h[k]| ==> off % PAGE == 0 && off + PAGE <= S
    ensures off == |log.h[k]| ==> forall o :: off <= o < off + PAGE ==> ByteAt(log.h, k, o) == ERASED
  {
    PageBelow(off);
  }

  lemma NodeInside(log: LogStore, k: nat, section: nat, off: nat, rest: seq<Item>)
    requires Walking(log, k, section, off, rest) && rest != [] && rest[0].at == Addr(k, off) && NodeAt(log.h, rest[0])
    ensures k == |log.h| - 1 ==> off + Total(rest[0].e) <= |log.h[k]|
    ensures Total(rest[0].e) > 0
  {
  }

  // One turn of the inner loop.
  method LoadNode(log: LogStore, tab: NodeTable, section: nat, offset: nat, dirIdMax: u16, ghost k: nat,
                  ghost rest: seq<Item>, ghost s: seq<Item>, ghost who: map<Key, nat>, ghost key: map<nat, Key>)
    returns (offset': nat, stop: bool, max: u16, ghost rest': seq<Item>, ghost s': seq<Item>,
             ghost who': map<Key, nat>, ghost key': map<nat, Key>)
    requires Walking(log, k, section, offset, rest) && offset < S && Progress(tab, who, key, s, rest, dirIdMax)
    requires log.cache.buf != tab.pool.refCnt
    modifies tab`nodes, tab`list, tab`lst, tab.pool, tab.pool.refCnt
    ensures Progress(tab, who', key', s', rest', max) && s' + rest' == s + rest
    ensures Walking(log, k, section, offset', rest')
    ensures if stop then offset' == offset == |log.h[k]| && rest' == [] else offset' > offset
  {
    hide Walk, Parsed, Replay, MaxDirId, PoolFits, NodeAt, LogStore.Readable;
    ghost var h, it := log.h, if rest != [] then rest[0] else Item(Addr(0, 0), DirRemove(0));
    WalkMeets(h, k, offset, rest);
    EmptyPage(log, k, section, offset, rest);
    rest', s', who', key', max, stop := rest, s, who, key, dirIdMax, false;
    var head := NodeMetadataRead(log, section, offset, k, it);
    if head != Unreadable {
      Shift(s, rest);
      NodeInside(log, k, section, offset, rest);
      var length;
      length, max, who', key' := Parse(tab, head, section, offset, dirIdMax, it, who, key, s);
      return offset + length, false, max, rest[1..], s + [it], who', key';
    }
    NotReadable(it);
    if offset % PAGE == 0 {
      var empty := NvmPageEmpty(log, section, offset, k);
      if empty {
        return offset, true, max, rest, s, who', key';
      }
    }
    offset' := (offset + PAGE) / PAGE * PAGE;
  }

  lemma NotReadable(it: Item)
    ensures HeadOf(it.e) != Unreadable
  {
  }

  // The nodes of one section.
  method LoadSection(log: LogStore, tab: NodeTable, section: nat, nodeOffset: nat, dirIdMax: u16, ghost k: nat,
                     ghost items: seq<Item>, ghost s: seq<Item>, ghost who: map<Key, nat>, ghost key: map<nat, Key>)
    returns (offset: nat, max: u16, ghost who': map<Key, nat>, ghost key': map<nat, Key>)
    requires Walking(log, k, section, nodeOffset, items) && Progress(tab, who, key, s, items, dirIdMax)
    requires log.cache.buf != tab.pool.refCnt
    modifies tab`nodes, tab`list, tab`lst, tab.pool, tab.pool.refCnt
    ensures Parsed(tab, who', key', Replay(s + items)) && max == MaxDirId(s + items)
    ensures k == |log.h| - 1 ==> offset == |log.h[k]|
  {
    hide Walk, Parsed, Replay, MaxDirId, PoolFits, LogStore.Readable;
    ghost var rest, done := items, s;
    offset, max, who', key' := nodeOffset, dirIdMax, who, key;
    var stop := false;
    while offset > 5 && offset < S && !stop
      invariant Walking(log, k, section, offset, rest)
      invariant Progress(tab, who', key', done, rest, max) && done + rest == s + items
      invariant stop ==> offset == |log.h[k]| && rest == []
      decreases S - offset, !stop
    {
      offset, stop, max, rest, done, who', key' := LoadNode(log, tab, section, offset, max, k, rest, done, who', key');
    }
    if offset >= S {
      WalkDone(log, k, section, offset, rest);
    }
    assert done + [] == done;
  }

  lemma WalkDone(log: LogStore, k: nat, section: nat, off: nat, rest: seq<Item>)
    requires Walking(log, k, section, off, rest) && off >= S
    ensures rest == [] && (k == |log.h| - 1 ==> off == |log.h[k]|)
  {
  }

  // What a mount can rely on: a log that was written through, with all its nodes known.
  ghost predicate Mountable(log: LogStore, items: Items)
    reads log`h, log`lo, log.cache, log.cache.buf, log.cache.nvm
  {
    && log.Readable() && log.cache.idx == 0 && TailOffset(log.h) % PAGE == 0 && log.lo < |log.h|
    && Walks(log.h, items) && PoolFits(Flat(items, log.lo), POOL - 1)
  }

  ghost predicate HeadsRead(log: LogStore, heads: seq<HeadData>, valid: seq<bool>)
    reads log`h, log`lo
  {
    && log.lo < |log.h| <= log.lo + N && ValidRun(heads, valid, log.lo, |log.h| - log.lo)
    && forall k :: log.lo <= k < |log.h| ==> HEAD <= |log.h[k]| && heads[Phys(k)].nodeOffset == FirstNode(log.h, k)
  }

  lemma EntersSection(log: LogStore, items: Items, k: nat)
    requires Mountable(log, items) && log.lo <= k < |log.h|
    ensures HEAD <= |log.h[k]| && |items| == |log.h| && Walking(log, k, Phys(k), FirstNode(log.h, k), items[k])
  {
    assert SectionWalks(log.h, k, items[k]);
    WalkStarts(log.h, k, FirstNode(log.h, k), items[k]);
  }

  lemma SectionFits(s: seq<Item>, items: Items, lo: nat, j: nat)
    requires j < |items| && PoolFits(Flat(items, lo), POOL - 1) && Flat(items, lo) == s + Flat(items, j)
    ensures Flat(items, lo) == s + items[j] + Flat(items, j + 1) && PoolFits(s + items[j], POOL - 1)
  {
    var a, b := s + items[j], Flat(items, j + 1);
    assert s + (items[j] + b) == a + b;
    forall n | 0 <= n <= |a|
      ensures |Replay(a[..n])| <= POOL - 1
    {
      assert (a + b)[..n] == a[..n];
    }
  }

  // One turn of the outer loop: section `j`.
  method LoadNext(log: LogStore, tab: NodeTable, section: nat, nodeOffset: nat, dirIdMax: u16, ghost j: nat, ghost items: Items,
                  ghost s: seq<Item>, ghost who: map<Key, nat>, ghost key: map<nat, Key>)
    returns (offset: nat, max: u16, ghost who': map<Key, nat>, ghost key': map<nat, Key>)
    requires Mountable(log, items) && log.cache.buf != tab.pool.refCnt && log.lo <= j < |log.h| == |items| && section == Phys(j)
    requires HEAD <= |log.h[j]| && nodeOffset == FirstNode(log.h, j)
    requires Parsed(tab, who, key, Replay(s)) && dirIdMax == MaxDirId(s) && Flat(items, log.lo) == s + Flat(items, j)
    modifies tab`nodes, tab`list, tab`lst, tab.pool, tab.pool.refCnt
    ensures Parsed(tab, who', key', Replay(s + items[j])) && max == MaxDirId(s + items[j])
    ensures Flat(items, log.lo) == s + items[j] + Flat(items, j + 1)
    ensures j == |log.h| - 1 ==> offset == |log.h[j]|
  {
    EntersSection(log, items, j);
    SectionFits(s, items, log.lo, j);
    hide Walk, Walks, Parsed, Replay, MaxDirId, PoolFits, LogStore.Readable, Flat, FirstNode, Walking;
    offset, max, who', key' := LoadSection(log, tab, section, nodeOffset, dirIdMax, j, items[j], s, who, key);
  }

  // nodes_info_load: from the head section to the tail section, every node of the log in order.
  method NodesInfoLoad(log: LogStore, tab: NodeTable, heads: seq<HeadData>, valid: seq<bool>, ghost items: Items)
    returns (offset: nat, max: u16, ghost who: map<Key, nat>, ghost key: map<nat, Key>)
    requires Mountable(log, items) && HeadsRead(log, heads, valid) && log.cache.buf != tab.pool.refCnt
    requires log.tail_section == Phys(|log.h| - 1) && Parsed(tab, map[], map[], map[])
    modifies tab`nodes, tab`list, tab`lst, tab.pool, tab.pool.refCnt
    ensures Parsed(tab, who, key, Replay(Flat(items, log.lo))) && max == MaxDirId(Flat(items, log.lo))
    ensures offset == TailOffset(log.h)
  {
    hide Walk, Walks, Parsed, MaxDirId, PoolFits, LogStore.Readable, FirstNode, Mountable, Replay, Flat, Phys;
    ghost var h, lo, s, j := log.h, log.lo, [], log.lo;
    NothingYet();
    assert Flat(items, lo) == s + Flat(items, lo);
    EntersSection(log, items, lo) by {
      assert Mountable(log, items);
    }
    var i := log.tail_section;
    offset, max, who, key := 0, 0, map[], map[];
    while true
      invariant lo <= j < |h| && i == Phys(if j == lo then |h| - 1 else j - 1)
      invariant Mountable(log, items) && HeadsRead(log, heads, valid)
      invariant Parsed(tab, who, key, Replay(s)) && max == MaxDirId(s) && Flat(items, lo) == s + Flat(items, j)
      decreases |h| - j
    {
      i := GetNextValidSection(valid, i, heads, lo, |h| - lo, if j == lo then |h| - 1 else j - 1);
      assert i == Phys(j);
      offset, max, who, key := LoadNext(log, tab, i, heads[i].nodeOffset, max, j, items, s, who, key);
      s := s + items[j];
      if i == log.tail_section {
        PhysInjective(j, |h| - 1);
        break;
      }
      j := j + 1;
    }
    FlatEnds(items);
    assert s + [] == s;
  }

  lemma NothingYet()
    ensures MaxDirId([]) == 0 && Replay([]) == map[]
  {
  }

  lemma FlatEnds(items: Items)
    ensures Flat(items, |items|) == []
  {
  }
}
