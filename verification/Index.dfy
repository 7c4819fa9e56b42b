// How the log and the nodes in memory agree (dev/module/tinyfs/tinyfs.c:111-146, 331-380, 927-940).
module Index {
  import opened Sequences
  import opened Ring
  import opened Layout
  import opened Codec
  import opened MountWalk
  import opened LogReplay
  import opened Nodes

  // The log from section `lo` on means `live`, except for the keys of `skip`, which memory has already
  // let go; it would mean the same had no section ever been reclaimed; and it can be replayed in the pool.
  ghost predicate LogOk(h: History, lo: nat, items: Items, live: Live, skip: set<Key>) {
    && Walks(h, items) && Placed(items) && lo <= |items|
    && live == Replay(Flat(items, lo)) - skip
    && live == Replay(Flat(items, 0)) - skip
    && PoolFits(Flat(items, 0), POOL - 1)
  }

  lemma UnionCounts<T>(a: set<T>, b: set<T>)
    ensures |a + b| <= |a| + |b|
  {
    assert a + b == a + (b - a);
    SubsetCounts(b - a, b);
  }

  lemma ApplyMinus(m: Live, skip: set<Key>, it: Item)
    ensures Apply(m, it) - (skip - {KeyOf(it.e)}) == Apply(m - skip, it)
  {
    var a, b := Apply(m, it) - (skip - {KeyOf(it.e)}), Apply(m - skip, it);
    assert a.Keys == b.Keys;
  }

  lemma CursorFollows(h: History, items: Items, e: Entry)
    requires Wf(h) && |items| == |h|
    ensures Follows(items, Item(Cursor(h), e))
  {
  }

  // The node appended to the log is the one the replay sees next.
  lemma LogTakes(h: History, lo: nat, items: Items, live: Live, skip: set<Key>, e: Entry)
    requires Wf(h) && LogOk(h, lo, items, live, skip) && Total(e) <= C && (h == [] ==> lo == 0) && (h != [] ==> lo < |h|)
    requires |Apply(live, Item(Cursor(h), e))| + |skip - {KeyOf(e)}| <= POOL - 1
    ensures var h', it := Append(h, Bytes(e), true, 0), Item(Cursor(h), e);
            LogOk(h', lo, AddItem(items, |h'|, it), Apply(live, it), skip - {KeyOf(e)})
  {
    var h', it := Append(h, Bytes(e), true, 0), Item(Cursor(h), e);
    hide Append, Bytes, Walks, NodeAt, HeadBytes, Replay, Flat, AddItem, Placed;
    WalksTakeNode(h, items, e);
    assert |items| == |h| by {
      WalksCounts(h, items);
    }
    CursorFollows(h, items, e);
    PlacedAdds(items, |h'|, it);
    FlatAdds(items, |h'|, it, lo);
    FlatAdds(items, |h'|, it, 0);
    var s := Flat(items, 0);
    ReplayOne(Flat(items, lo), it);
    ReplayOne(s, it);
    ApplyMinus(Replay(Flat(items, lo)), skip, it);
    ApplyMinus(Replay(s), skip, it);
    var m, skip' := Replay(s + [it]), skip - {KeyOf(e)};
    assert m.Keys <= (m - skip').Keys + skip';
    SubsetCounts(m.Keys, (m - skip').Keys + skip');
    UnionCounts((m - skip').Keys, skip');
    PoolFitsOneMore(s, it, POOL - 1);
    assert |AddItem(items, |h'|, it)| >= |items| by {
      AddItemCounts(items, |h'|, it);
    }
  }

  // No directory id among the nodes is greater than `top`.
  ghost predicate IdsBelow(s: seq<Item>, top: nat) {
    forall i :: 0 <= i < |s| && s[i].e.DirAdd? ==> s[i].e.id <= top
  }

  lemma IdsTake(h: History, lo: nat, items: Items, live: Live, skip: set<Key>, e: Entry, top: nat)
    requires Wf(h) && LogOk(h, lo, items, live, skip) && (h == [] ==> lo == 0) && (h != [] ==> lo < |h|)
    requires IdsBelow(Flat(items, lo), top)
    ensures var h', it := Append(h, Bytes(e), true, 0), Item(Cursor(h), e);
            IdsBelow(Flat(AddItem(items, |h'|, it), lo), if e.DirAdd? && top < e.id then e.id else top)
  {
    hide Append, Bytes, Walks, Replay, Flat, AddItem, Placed;
    WalksCounts(h, items);
    CursorFollows(h, items, e);
    FlatAdds(items, |Append(h, Bytes(e), true, 0)|, Item(Cursor(h), e), lo);
  }

  lemma IdsDrop(h: History, lo: nat, items: Items, live: Live, skip: set<Key>, top: nat)
    requires LogOk(h, lo, items, live, skip) && lo < |h| && IdsBelow(Flat(items, lo), top)
    ensures IdsBelow(Flat(items, lo + 1), top)
  {
    WalksCounts(h, items);
    IdsOfRest(items[lo], Flat(items, lo + 1), top);
  }

  lemma IdsOfRest(a: seq<Item>, b: seq<Item>, top: nat)
    requires IdsBelow(a + b, top)
    ensures IdsBelow(b, top)
  {
    forall i | 0 <= i < |b| && b[i].e.DirAdd?
      ensures b[i].e.id <= top
    {
      assert (a + b)[|a| + i] == b[i];
    }
  }

  lemma IdsOfLive(h: History, lo: nat, items: Items, live: Live, skip: set<Key>, key: Key, top: nat)
    requires LogOk(h, lo, items, live, skip) && key in live && IdsBelow(Flat(items, lo), top)
    ensures live[key].e.DirAdd? ==> live[key].e.id <= top
  {
    hide Walks, Placed, Flat, Replay, PoolFits;
    ReplayHolds(Flat(items, lo), key);
  }

  lemma WalksCounts(h: History, items: Items)
    requires Walks(h, items)
    ensures |items| == |h|
  {
  }

  lemma AddItemCounts(items: Items, sections: nat, it: Item)
    ensures |AddItem(items, sections, it)| >= |items|
  {
  }

  lemma LogPads(h: History, lo: nat, items: Items, live: Live, skip: set<Key>)
    requires Wf(h) && LogOk(h, lo, items, live, skip)
    ensures LogOk(Padded(h), lo, items, live, skip)
  {
    hide Walks, Placed, Flat, Replay, Padded;
    WalksTakePadding(h, items);
  }

  // The oldest section may go once no live node is in it.
  lemma LogDrops(h: History, lo: nat, items: Items, live: Live, skip: set<Key>)
    requires LogOk(h, lo, items, live, skip) && lo < |h|
    requires forall key :: key in live ==> live[key].at.k != lo
    ensures LogOk(h, lo + 1, items, live, skip)
  {
    WalksCounts(h, items);
    var a, b := items[lo], Flat(items, lo + 1);
    assert Flat(items, lo) == a + b;
    forall key | key in Replay(a + b) && key !in skip
      ensures Replay(a + b)[key] !in a
    {
      assert key in live && live[key] == Replay(a + b)[key];
    }
    PrefixDrops(a, b, skip);
  }

  // ---- Nodes in memory ----

  ghost predicate NodeMatches(n: Node, it: Item) {
    && IsAdd(it.e)
    && n.section == Phys(it.at.k) && n.offset == it.at.off
    && n.name == it.e.name
    && n.IsDir() == it.e.DirAdd?
    && n.idOrLength == (if it.e.DirAdd? then it.e.id else |it.e.data|)
  }

  // `who` and `key` pair the live keys with the nodes.
  ghost predicate Paired(who: map<Key, nat>, key: map<nat, Key>, live: Live) {
    && who.Keys == live.Keys
    && (forall k :: k in who ==> who[k] in key && key[who[k]] == k)
    && (forall i :: i in key ==> key[i] in who && who[key[i]] == i)
  }

  // Each node describes the item its key stands for.
  ghost predicate Described(nodes: seq<Node>, key: map<nat, Key>, live: Live) {
    && |nodes| == POOL
    && forall i :: i in key ==>
         && ROOT < i < POOL && key[i] in live
         && KeyOf(live[key[i]].e) == key[i] && NodeMatches(nodes[i], live[key[i]])
  }

  // Each node is listed under the section it starts in, and no other node is listed.
  ghost predicate Listed(nodes: seq<Node>, lst: seq<seq<nat>>, key: map<nat, Key>) {
    && |nodes| == POOL && |lst| == N
    && (forall i :: i in key ==> i < POOL && nodes[i].section < N && i in lst[nodes[i].section])
    && (forall p, j :: 0 <= p < N && 0 <= j < |lst[p]| ==> lst[p][j] in key)
  }

  ghost predicate IndexOk(nodes: seq<Node>, lst: seq<seq<nat>>, who: map<Key, nat>, key: map<nat, Key>, live: Live) {
    Paired(who, key, live) && Described(nodes, key, live) && Listed(nodes, lst, key)
  }

  lemma DescribedPuts(a: seq<Node>, b: seq<Node>, who: map<Key, nat>, key: map<nat, Key>, live: Live, idx: nat, it: Item)
    requires Paired(who, key, live) && Described(a, key, live) && idx !in key && KeyOf(it.e) !in who && ROOT < idx < POOL
    requires |b| == |a| && NodeMatches(b[idx], it)
    requires forall i :: 0 <= i < |a| && i != idx ==> b[i] == a[i].(adjacent := b[i].adjacent)
    ensures Described(b, key[idx := KeyOf(it.e)], live[KeyOf(it.e) := it])
  {
  }

  lemma ListedPuts(a: seq<Node>, b: seq<Node>, lst: seq<seq<nat>>, key: map<nat, Key>, idx: nat, k: Key)
    requires Listed(a, lst, key) && idx < POOL && |b| == |a| && b[idx].section < N
    requires forall i :: 0 <= i < |a| && i != idx ==> b[i] == a[i].(adjacent := b[i].adjacent)
    ensures var p := b[idx].section;
            Listed(b, lst[p := lst[p] + [idx]], key[idx := k])
  {
    var p := b[idx].section;
    var key', lst' := key[idx := k], lst[p := lst[p] + [idx]];
    forall i | i in key'
      ensures i < POOL && b[i].section < N && i in lst'[b[i].section]
    {
      if i == idx {
        assert lst'[p][|lst[p]|] == idx;
      }
    }
  }

  // The node `idx`, now listed last under its section, stands for the item `it`.
  lemma IndexPuts(a: seq<Node>, b: seq<Node>, lst: seq<seq<nat>>, who: map<Key, nat>, key: map<nat, Key>, live: Live,
                  idx: nat, it: Item)
    requires IndexOk(a, lst, who, key, live) && idx !in key && KeyOf(it.e) !in live && ROOT < idx < POOL == |a|
    requires SameButAdjacent(a, b) && NodeMatches(a[idx], it)
    ensures var k, p := KeyOf(it.e), Phys(it.at.k);
            IndexOk(b, lst[p := lst[p] + [idx]], who[k := idx], key[idx := k], live[k := it])
  {
    assert NodeMatches(b[idx], it) && b[idx].section == Phys(it.at.k);
    hide Described, Listed, NodeMatches;
    DescribedPuts(a, b, who, key, live, idx, it);
    ListedPuts(a, b, lst, key, idx, KeyOf(it.e));
  }

  lemma DescribedDrops(a: seq<Node>, b: seq<Node>, who: map<Key, nat>, key: map<nat, Key>, live: Live, idx: nat)
    requires Paired(who, key, live) && Described(a, key, live) && idx in key && SameButAdjacent(a, b)
    ensures Described(b, key - {idx}, live - {key[idx]})
  {
  }

  lemma ListedDrops(a: seq<Node>, b: seq<Node>, lst: seq<seq<nat>>, key: map<nat, Key>, idx: nat, p: nat, j: nat)
    requires Listed(a, lst, key) && SameButAdjacent(a, b)
    requires p < N && j < |lst[p]| && lst[p][j] == idx && Distinct(lst[p])
    requires forall q, i :: 0 <= q < N && 0 <= i < |lst[q]| ==> a[lst[q][i]].section == q
    ensures Listed(b, lst[p := Without(lst[p], j)], key - {idx})
  {
    var lst' := lst[p := Without(lst[p], j)];
    forall i | i in key && i != idx
      ensures i in lst'[b[i].section]
    {
      var q := a[i].section;
      var m :| 0 <= m < |lst[q]| && lst[q][m] == i;
      if q == p {
        assert lst'[p][if m < j then m else m - 1] == i;
      }
    }
    forall q, m | 0 <= q < N && 0 <= m < |lst'[q]|
      ensures lst'[q][m] in key - {idx}
    {
      if q == p {
        assert lst'[p][m] == lst[p][if m < j then m else m + 1];
      } else {
        assert a[lst[q][m]].section == q && a[lst[p][j]].section == p;
      }
    }
  }

  // The node `idx` stands for nothing any more.
  lemma IndexDrops(a: seq<Node>, b: seq<Node>, lst: seq<seq<nat>>, who: map<Key, nat>, key: map<nat, Key>, live: Live,
                   idx: nat, p: nat, j: nat)
    requires IndexOk(a, lst, who, key, live) && idx in key && SameButAdjacent(a, b)
    requires p < N && j < |lst[p]| && lst[p][j] == idx && Distinct(lst[p])
    requires forall q, i :: 0 <= q < N && 0 <= i < |lst[q]| ==> a[lst[q][i]].section == q
    ensures IndexOk(b, lst[p := Without(lst[p], j)], who - {key[idx]}, key - {idx}, live - {key[idx]})
  {
    DescribedDrops(a, b, who, key, live, idx);
    ListedDrops(a, b, lst, key, idx, p, j);
    hide Described, Listed;
  }

  lemma WhereListed(nodes: seq<Node>, lst: seq<seq<nat>>, who: map<Key, nat>, key: map<nat, Key>, live: Live, idx: nat)
    requires IndexOk(nodes, lst, who, key, live) && idx in key
    ensures ROOT < idx < POOL == |nodes| && |lst| == N && nodes[idx].section < N && idx in lst[nodes[idx].section]
    ensures key[idx] in live && NodeMatches(nodes[idx], live[key[idx]]) && KeyOf(live[key[idx]].e) == key[idx]
    ensures key[idx] in who && who[key[idx]] == idx
  {
    hide NodeMatches;
  }

  // Each live node is in one list, that of its section, and there once; lists hold no other node.
  lemma ListedOnce(nodes: seq<Node>, list: seq<TinyList>, lst: seq<seq<nat>>,
                   who: map<Key, nat>, key: map<nat, Key>, live: Live, i: nat)
    requires ListsOk(nodes, list, lst) && IndexOk(nodes, lst, who, key, live)
    ensures i in key <==> exists p :: 0 <= p < N && i in lst[p]
    ensures forall p, j, q, m :: 0 <= p < N && 0 <= q < N && 0 <= j < |lst[p]| && 0 <= m < |lst[q]| ==>
              lst[p][j] == i && lst[q][m] == i ==> p == q == nodes[i].section && j == m
  {
    hide Paired, Described;
    forall p, j | 0 <= p < N && 0 <= j < |lst[p]| && lst[p][j] == i
      ensures i < |nodes| && nodes[i].section == p && Distinct(lst[p])
    {
      assert ListOk(nodes, list[p], lst[p], p);
    }
    hide ListsOk;
  }

  // tinyfs_list_del of a node that stands for a key
  lemma IndexDetaches(a: seq<Node>, b: seq<Node>, list: seq<TinyList>, lst: seq<seq<nat>>,
                      who: map<Key, nat>, key: map<nat, Key>, live: Live, idx: nat, p: nat, j: nat)
    requires ListsOk(a, list, lst) && IndexOk(a, lst, who, key, live) && idx in key && SameButAdjacent(a, b)
    requires p < N && j < |lst[p]| && lst[p][j] == idx
    ensures IndexOk(b, lst[p := Without(lst[p], j)], who - {key[idx]}, key - {idx}, live - {key[idx]})
  {
    hide Described, Listed, Paired;
    forall q, i | 0 <= q < N && 0 <= i < |lst[q]|
      ensures a[lst[q][i]].section == q
    {
      assert ListOk(a, list[q], lst[q], q);
    }
    assert ListOk(a, list[p], lst[p], p);
    IndexDrops(a, b, lst, who, key, live, idx, p, j);
  }

  lemma ListsIgnore(a: seq<Node>, list: seq<TinyList>, lst: seq<seq<nat>>, idx: nat, n: Node)
    requires ListsOk(a, list, lst) && idx < |a| && forall p :: 0 <= p < N ==> idx !in lst[p]
    ensures ListsOk(a[idx := n], list, lst)
  {
    forall q | 0 <= q < N
      ensures ListOk(a[idx := n], list[q], lst[q], q)
    {
      assert ListOk(a, list[q], lst[q], q);
      SizeSame(a, a[idx := n], lst[q]);
    }
  }

  // A node may be described anew while it stands for nothing.
  lemma IndexIgnores(a: seq<Node>, list: seq<TinyList>, lst: seq<seq<nat>>,
                     who: map<Key, nat>, key: map<nat, Key>, live: Live, idx: nat, n: Node)
    requires ListsOk(a, list, lst) && IndexOk(a, lst, who, key, live) && idx !in key && idx < |a|
    ensures ListsOk(a[idx := n], list, lst) && IndexOk(a[idx := n], lst, who, key, live)
    ensures forall p :: 0 <= p < N ==> idx !in lst[p]
  {
    hide NodeMatches, ListOk;
    assert forall p :: 0 <= p < N ==> idx !in lst[p];
    ListsIgnore(a, list, lst, idx, n);
  }

  // Letting a key go and taking it up again.
  lemma Repaired(who: map<Key, nat>, key: map<nat, Key>, live: Live, skip: set<Key>, idx: nat, k: Key, it: Item)
    requires idx in key && key[idx] == k && k in who && who[k] == idx && k in live && k !in skip
    ensures (key - {idx})[idx := k] == key && (who - {k})[k := idx] == who
    ensures (live - {k})[k := it] == live[k := it] && skip + {k} - {k} == skip
    ensures |live - {k}| == |live| - 1
  {
    assert (live - {k}).Keys == live.Keys - {k};
    assert |live| == |live.Keys| && |live - {k}| == |(live - {k}).Keys|;
  }

  // The head of a list is a live node of its section; an empty list's section has none.
  lemma HeadOfList(nodes: seq<Node>, list: seq<TinyList>, lst: seq<seq<nat>>,
                   who: map<Key, nat>, key: map<nat, Key>, live: Live, p: nat)
    requires ListsOk(nodes, list, lst) && IndexOk(nodes, lst, who, key, live) && p < N
    ensures var x := list[p].head;
            if x == NIL then forall i :: i in key ==> i < |nodes| && nodes[i].section != p
            else x in key && x < |nodes| && nodes[x].section == p && nodes[x].Length() <= list[p].size
  {
    hide NodeMatches;
    var s := lst[p];
    assert ListOk(nodes, list[p], s, p);
    if s != [] {
      assert s[0] in key && LengthAt(nodes, s[0]) <= SizeOf(nodes, s);
    }
  }

  // No live node is left in the oldest section when its list is empty.
  lemma NoneInSection(nodes: seq<Node>, who: map<Key, nat>, key: map<nat, Key>, live: Live, lst: seq<seq<nat>>,
                      lo: nat)
    requires IndexOk(nodes, lst, who, key, live)
    requires forall i :: i in key ==> i < |nodes| && nodes[i].section != Phys(lo)
    ensures forall k :: k in live ==> live[k].at.k != lo
  {
    forall k | k in live
      ensures live[k].at.k != lo
    {
      assert NodeMatches(nodes[who[k]], live[k]);
    }
  }

  // ---- The log's live nodes ----

  lemma {:induction false} WalkHolds(h: History, k: nat, off: nat, its: seq<Item>, it: Item)
    requires k < |h| && Walk(h, k, off, its) && it in its
    ensures NodeAt(h, it)
    decreases S - off
  {
    hide NodeAt;
    if its[0].at == Addr(k, off) {
      if it != its[0] {
        WalkHolds(h, k, off + Total(its[0].e), its[1..], it) by {
          NodeIsLong(its[0].e);
        }
      }
    } else {
      WalkHolds(h, k, PageEnd(off), its, it);
    }
  }

  lemma NodeIsLong(e: Entry)
    ensures Total(e) > 0
  {
  }

  lemma {:induction false} FlatHolds(h: History, items: Items, from: nat, it: Item)
    requires Walks(h, items) && it in Flat(items, from)
    ensures NodeAt(h, it)
    decreases |items| - from
  {
    hide NodeAt, Walk;
    if it in items[from] {
      WalkHolds(h, from, FirstNode(h, from), items[from], it);
    } else {
      FlatHolds(h, items, from + 1, it);
    }
  }

  // A live node lies in the window, where its bytes are.
  lemma LiveNode(h: History, lo: nat, items: Items, live: Live, skip: set<Key>, key: Key)
    requires LogOk(h, lo, items, live, skip) && key in live
    ensures NodeAt(h, live[key]) && lo <= live[key].at.k < |h|
    ensures IsAdd(live[key].e) && KeyOf(live[key].e) == key && key !in skip
  {
    var s := Flat(items, lo);
    ReplayHolds(s, key);
    hide Replay, Flat, NodeAt, Walk;
    FlatHolds(h, items, lo, live[key]);
    FlatPlaces(items, lo, live[key]);
  }

  // Memory may let a live node go before the log does.
  lemma LogSkips(h: History, lo: nat, items: Items, live: Live, skip: set<Key>, k: Key)
    requires LogOk(h, lo, items, live, skip)
    ensures LogOk(h, lo, items, live - {k}, skip + {k})
  {
    hide Walks, Placed, Replay, Flat, PoolFits;
    MinusMinus(Replay(Flat(items, lo)), skip, k);
    MinusMinus(Replay(Flat(items, 0)), skip, k);
  }

  lemma MinusMinus<K, V>(m: map<K, V>, skip: set<K>, k: K)
    ensures m - skip - {k} == m - (skip + {k})
  {
  }

  // ---- Sizes ----

  function Sum(list: seq<TinyList>): nat {
    if list == [] then 0 else list[0].size + Sum(list[1..])
  }

  lemma {:induction false} SumPuts(list: seq<TinyList>, list': seq<TinyList>, p: nat)
    requires p < |list| == |list'| && forall q :: 0 <= q < |list| && q != p ==> list'[q].size == list[q].size
    ensures Sum(list') == Sum(list) - list[p].size + list'[p].size
    ensures list[p].size <= Sum(list)
  {
    if p == 0 {
      SumSame(list[1..], list'[1..]);
    } else {
      SumPuts(list[1..], list'[1..], p - 1);
    }
  }

  lemma {:induction false} SumSame(list: seq<TinyList>, list': seq<TinyList>)
    requires |list| == |list'| && forall q :: 0 <= q < |list| ==> list'[q].size == list[q].size
    ensures Sum(list') == Sum(list)
  {
    if list != [] {
      SumSame(list[1..], list'[1..]);
    }
  }
}
