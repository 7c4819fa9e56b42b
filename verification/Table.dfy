// The node pool and the section lists, updated in place (dev/module/tinyfs/tinyfs.c:316-421, 753-761).
module Table {
  import opened Sequences
  import opened Nor
  import opened Ring
  import opened Nodes
  import opened Pool

  // What the searches of the replay compare with.
  datatype Wanted = WantedRecord(parent: u16, name: u16) | WantedDir(id: u16)

  // record_compare and dir_compare
  predicate Matches(n: Node, w: Wanted) {
    match w
    case WantedRecord(parent, name) => !n.IsDir() && n.parentDir == parent && n.name == name
    case WantedDir(id) => n.IsDir() && n.idOrLength == id
  }

  ghost predicate NoneMatches(nodes: seq<Node>, s: seq<nat>, w: Wanted) {
    forall x :: x in s && x < |nodes| ==> !Matches(nodes[x], w)
  }

  class NodeTable {
    const pool: LinkedBuffer
    var nodes: seq<Node>
    var list: seq<TinyList>
    ghost var lst: seq<seq<nat>>  // the nodes of each section list

    // INIT_LINKED_BUF and tinyfs_list_init, on memory that is zero at power-up
    constructor ()
      ensures Threaded() && Counted() && fresh(pool) && fresh(pool.refCnt) && pool.Held() == {}
      ensures lst == seq(N, _ => []) && forall p :: 0 <= p < N ==> list[p].size == 0
      ensures pool.allocatable != [] && pool.allocatable[0] == pool.Elem(ROOT)
    {
      pool := new LinkedBuffer(0x1000, 20, POOL);
      nodes := seq(POOL, _ => Node(0, 0, 0, 0, 0, 0, 0, 0));
      list := seq(N, _ => TinyList(NIL, NIL, 0));
      lst := seq(N, _ => []);
    }

    ghost predicate Threaded()
      reads this
    {
      |nodes| == POOL && |list| == |lst| == N && ListsOk(nodes, list, lst)
    }

    // Every reference is the only one: nodes are never retained.
    ghost predicate Counted()
      reads pool, pool.refCnt
    {
      && pool.Valid() && pool.bufLength == POOL
      && forall i :: i in pool.Held() ==> pool.refCnt[i] == 1
    }

    method TinyListPush(p: nat, idx: nat)
      requires Threaded() && p < N && idx < POOL && nodes[idx].section == p && idx !in lst[p]
      modifies this`nodes, this`list, this`lst
      ensures Threaded() && SameButAdjacent(old(nodes), nodes)
      ensures lst == old(lst)[p := old(lst)[p] + [idx]]
      ensures list[p].size == old(list)[p].size + nodes[idx].Length()
      ensures list == old(list)[p := list[p]]
    {
      ghost var a, s, l := nodes, lst[p], list[p];
      assert ListOk(a, l, s, p);
      var env := list[p];
      if env.head == NIL {
        env := env.(head := idx);
      }
      nodes := nodes[idx := nodes[idx].(adjacent := NIL)];
      if env.tail != NIL {
        nodes := nodes[env.tail := nodes[env.tail].(adjacent := idx)];
      }
      env := env.(tail := idx, size := env.size + nodes[idx].Length());
      PushedOk(a, l, s, p, idx);
      OtherListsOk(a, nodes, list, lst, p, env, s + [idx]);
      list := list[p := env];
      lst := lst[p := s + [idx]];
    }

    // `i` is where the node was.
    method TinyListDel(p: nat, idx: nat) returns (deleted: bool, ghost i: nat)
      requires Threaded() && p < N && idx < POOL
      modifies this`nodes, this`list, this`lst
      ensures Threaded() && SameButAdjacent(old(nodes), nodes) && deleted == (idx in old(lst)[p])
      ensures !deleted ==> nodes == old(nodes) && list == old(list) && lst == old(lst)
      ensures deleted ==> i < |old(lst)[p]| && old(lst)[p][i] == idx && lst == old(lst)[p := Without(old(lst)[p], i)]
      ensures deleted ==> list[p].size == old(list)[p].size - old(nodes)[idx].Length()
      ensures list == old(list)[p := list[p]]
    {
      hide ListsOk, Without, SameButAdjacent;
      ghost var s := lst[p];
      ListIs(nodes, list, lst, p);
      i := 0;
      if list[p].head == idx {
        var env := list[p];
        HeadRemoved(s);
        if env.head == env.tail {
          env := env.(head := NIL, tail := NIL);
        } else {
          env := env.(head := nodes[idx].adjacent);
        }
        Unlink(p, idx, nodes, env.head, env.tail, 0);
        return true, 0;
      }
      deleted, i := DelInside(p, idx);
      if !deleted {
        assert list == list[p := list[p]];
      }
    }

    // The part of the removal that looks beyond the head of the list
    method DelInside(p: nat, idx: nat) returns (deleted: bool, ghost i: nat)
      requires Threaded() && p < N && idx < POOL && list[p].head != idx
      modifies this`nodes, this`list, this`lst
      ensures Threaded() && SameButAdjacent(old(nodes), nodes) && deleted == (idx in old(lst)[p])
      ensures !deleted ==> nodes == old(nodes) && list == old(list) && lst == old(lst)
      ensures deleted ==> i < |old(lst)[p]| && old(lst)[p][i] == idx && lst == old(lst)[p := Without(old(lst)[p], i)]
      ensures deleted ==> list[p].size == old(list)[p].size - old(nodes)[idx].Length()
      ensures deleted ==> list == old(list)[p := list[p]]
    {
      hide ListsOk, Without, Distinct, SameButAdjacent, LastOf;
      ghost var s := lst[p];
      ListIs(nodes, list, lst, p);
      SameAsItself(nodes);
      i := 0;
      var w := list[p].head;
      deleted := false;
      assert s != [] ==> s[0] == w;
      while w != NIL
        invariant i <= |s| && w == (if i < |s| then s[i] else NIL) && w != idx
        invariant forall j :: 0 <= j < i ==> s[j] != idx
        decreases |s| - i
      {
        assert nodes[s[i]].adjacent == NextIn(s, i);
        var before := w;
        w := nodes[w].adjacent;
        i := i + 1;
        if w == idx {
          var tail := if w == list[p].tail then before else list[p].tail;
          InnerRemoved(s, i);
          Unlink(p, idx, nodes[before := nodes[before].(adjacent := nodes[w].adjacent)], list[p].head, tail, i);
          return true, i;
        }
      }
    }

    // Every path of the removal ends in the same update.
    method Unlink(p: nat, idx: nat, b: seq<Node>, head: nat, tail: nat, ghost i: nat)
      requires Threaded() && p < N && i < |lst[p]| && lst[p][i] == idx
      requires var s := lst[p];
               && b == (if i == 0 then nodes else nodes[s[i - 1] := nodes[s[i - 1]].(adjacent := nodes[s[i]].adjacent)])
               && head == FirstOf(Without(s, i)) && tail == LastOf(Without(s, i))
      modifies this`nodes, this`list, this`lst
      ensures Threaded() && nodes == b && SameButAdjacent(old(nodes), nodes)
      ensures lst == old(lst)[p := Without(old(lst)[p], i)]
      ensures list[p].size == old(list)[p].size - old(nodes)[idx].Length()
      ensures list == old(list)[p := list[p]]
    {
      ghost var a, s, l := nodes, lst[p], list[p];
      assert ListOk(a, l, s, p);
      RemovedSize(a, b, l, s, p, i);
      var env := TinyList(head, tail, list[p].size - nodes[idx].Length());
      RemovedOk(a, b, l, s, p, i, env.size);
      OtherListsOk(a, b, list, lst, p, env, Without(s, i));
      nodes := b;
      list := list[p := env];
      lst := lst[p := Without(s, i)];
    }

    method NodeSearch(w: Wanted) returns (found: nat, ghost p: nat)
      requires Threaded()
      ensures found != NIL ==> found < POOL && p < N && found in lst[p] && nodes[found].section == p && Matches(nodes[found], w)
      ensures found != NIL ==> exists q :: 0 <= q < N && found in lst[q]
      ensures found == NIL ==> forall p :: 0 <= p < N ==> NoneMatches(nodes, lst[p], w)
    {
      hide ListsOk, NoneMatches, Matches;
      ListIs(nodes, list, lst, 0);
      var i := 0;
      while i < N
        invariant i <= N
        invariant forall q :: 0 <= q < i ==> NoneMatches(nodes, lst[q], w)
      {
        found := NodeListSearch(i, w);
        if found != NIL {
          return found, i;
        }
        i := i + 1;
      }
      return NIL, 0;
    }

    method NodeListSearch(p: nat, w: Wanted) returns (found: nat)
      requires Threaded() && p < N
      ensures found != NIL ==> found < POOL && found in lst[p] && nodes[found].section == p && Matches(nodes[found], w)
      ensures found == NIL ==> NoneMatches(nodes, lst[p], w)
    {
      hide ListsOk, Matches;
      ghost var s := lst[p];
      ListIs(nodes, list, lst, p);
      hide Distinct;
      ghost var i := 0;
      found := list[p].head;
      while found != NIL
        invariant i <= |s| && found == (if i < |s| then s[i] else NIL)
        invariant forall j :: 0 <= j < i ==> !Matches(nodes[s[j]], w)
        decreases |s| - i
      {
        if Matches(nodes[found], w) {
          return;
        }
        assert nodes[s[i]].adjacent == NextIn(s, i);
        found := nodes[found].adjacent;
        i := i + 1;
      }
    }

    method NodeAlloc() returns (idx: nat, ok: bool)
      requires Counted()
      modifies pool`allocatable, pool.refCnt
      ensures Counted() && if ok then |old(pool.Held())| < POOL else |old(pool.Held())| == POOL
      ensures ok ==> idx < POOL && idx !in old(pool.Held()) && pool.Held() == old(pool.Held()) + {idx}
      ensures ok && old(pool.allocatable[0] == pool.Elem(ROOT)) ==> idx == ROOT
      ensures !ok ==> pool.Held() == old(pool.Held())
    {
      var hdr, some := pool.Alloc();
      ok := some;
      idx := 0;
      if ok {
        idx := pool.Idx(hdr);
        pool.ElemInPool(ROOT);
      }
    }

    method NodeFree(idx: nat)
      requires Counted() && idx in pool.Held()
      modifies pool`allocatable, pool.refCnt
      ensures Counted() && pool.Held() == old(pool.Held()) - {idx}
    {
      pool.ElemInPool(idx);
      var count := pool.Release(pool.Elem(idx));
    }
  }

  // What the list of a section threads.
  lemma ListIs(nodes: seq<Node>, list: seq<TinyList>, lst: seq<seq<nat>>, p: nat)
    requires ListsOk(nodes, list, lst) && p < N
    ensures |list| == |lst| == N && list[p].head == FirstOf(lst[p]) && list[p].tail == LastOf(lst[p]) && Distinct(lst[p])
    ensures forall i :: 0 <= i < |lst[p]| ==>
              lst[p][i] < |nodes| <= NIL && nodes[lst[p][i]].section == p && nodes[lst[p][i]].adjacent == NextIn(lst[p], i)
  {
    assert ListOk(nodes, list[p], lst[p], p);
  }

  lemma SameAsItself(nodes: seq<Node>)
    ensures SameButAdjacent(nodes, nodes)
  {
  }

  lemma HeadRemoved(s: seq<nat>)
    requires s != [] && Distinct(s)
    ensures FirstOf(Without(s, 0)) == NextIn(s, 0)
    ensures LastOf(Without(s, 0)) == if s[0] == LastOf(s) then NIL else LastOf(s)
    ensures s[0] == LastOf(s) <==> |s| == 1
  {
  }

  lemma InnerRemoved(s: seq<nat>, i: nat)
    requires 0 < i < |s| && Distinct(s)
    ensures FirstOf(Without(s, i)) == s[0]
    ensures LastOf(Without(s, i)) == if s[i] == LastOf(s) then s[i - 1] else LastOf(s)
  {
  }
}
