// Mount: the flat lists become a directory tree again (dev/module/tinyfs/tinyfs.c:615-751).
module Rebuild {
  import opened LogReplay
  import opened Nodes
  import opened Collector
  import opened Tree
  import opened Subtree
  import opened Table
  import opened Sequences

  // What does not change while the tree is built: which node stands for which entry.
  datatype Plan = Plan(key: map<nat, Key>, who: map<Key, nat>, c: Contents)
  {
    // Nodes and entries go together, and every entry's parent is an entry or the root.
    ghost predicate Sane() {
      && (forall i :: i in key ==> ROOT < i < POOL && key[i] in who && who[key[i]] == i && key[i] in c)
      && (forall k :: k in c ==> k in who && who[k] in key && key[who[k]] == k && KeyOf(c[k]) == k)
      && Closed(c)
    }

    // The parent id that a node is loaded with.
    ghost function Par(i: nat): nat {
      if i in key && key[i] in c && IsAdd(c[key[i]]) then c[key[i]].parent else NIL
    }

    ghost predicate DirNode(i: nat) { i == ROOT || (i in key && key[i].Dir?) }

    ghost function Id(i: nat): nat { if i in key && key[i].Dir? then key[i].id else 0 }

    // The node of the directory with this id.
    ghost function Home(id: nat): nat {
      if 0 < id < 0x1_0000 && Dir(id) in who then who[Dir(id)] else ROOT
    }
  }

  // Kinds and ids of the nodes are those of the plan.
  ghost predicate Fits(nodes: seq<Node>, p: Plan) {
    && |nodes| == POOL && nodes[ROOT].IsDir() && nodes[ROOT].idOrLength == 0
    && forall i :: i in p.key && i < POOL ==>
         nodes[i].IsDir() == p.key[i].Dir? && (p.key[i].Dir? ==> nodes[i].idOrLength == p.key[i].id)
  }

  // parent_dir still holds the parent's id.
  ghost predicate Raw(nodes: seq<Node>, p: Plan) {
    |nodes| == POOL && nodes[ROOT].parentDir == NIL && forall i :: i in p.key && i < POOL ==> nodes[i].parentDir == p.Par(i)
  }

  lemma HomeIs(p: Plan, i: nat)
    requires p.Sane() && i in p.key
    ensures p.DirNode(p.Home(p.Par(i))) && p.Id(p.Home(p.Par(i))) == p.Par(i) < 0x1_0000
    ensures p.key[i].Dir? ==> p.Par(i) < p.Id(i) && p.Home(p.Id(i)) == i && p.Id(i) > 0
  {
    var k := p.key[i];
    assert IsAdd(p.c[k]);
  }

  // ---- Sorting ----

  // insert_check, for a node that is not the end of the chain
  predicate InsertCheck(already: Node, toInsert: Node) {
    if already.parentDir > toInsert.parentDir then true
    else if already.parentDir < toInsert.parentDir then false
    else if already.IsDir() && toInsert.IsDir() then already.idOrLength > toInsert.idOrLength
    else !already.IsDir()
  }

  // By parent id; under one parent directories by id, and then records.
  predicate MayPrecede(a: Node, b: Node) {
    || a.parentDir < b.parentDir
    || (a.parentDir == b.parentDir && (if b.IsDir() then a.IsDir() && a.idOrLength < b.idOrLength else true))
  }

  // The nodes `ord` are threaded from the root.
  ghost predicate Threads(nodes: seq<Node>, ord: seq<nat>) {
    && |nodes| == POOL && Distinct(ord)
    && nodes[ROOT].nextSibling == FirstOf(ord)
    && forall i :: 0 <= i < |ord| ==> ROOT < ord[i] < POOL && nodes[ord[i]].nextSibling == NextIn(ord, i)
  }

  ghost predicate Precede(nodes: seq<Node>, x: nat, y: nat) {
    x < |nodes| && y < |nodes| && MayPrecede(nodes[x], nodes[y])
  }

  ghost predicate Sorted(nodes: seq<Node>, ord: seq<nat>) {
    forall i, j :: 0 <= i < j < |ord| ==> Precede(nodes, ord[i], ord[j])
  }

  // No two directories have the same id.
  ghost predicate IdsApart(nodes: seq<Node>, ord: seq<nat>, n: Node) {
    forall i :: 0 <= i < |ord| && ord[i] < |nodes| && nodes[ord[i]].IsDir() && n.IsDir() ==> nodes[ord[i]].idOrLength != n.idOrLength
  }

  lemma Precedes(x: Node, y: Node, z: Node)
    requires MayPrecede(x, y) && MayPrecede(y, z)
    ensures MayPrecede(x, z)
  {
  }

  lemma CheckMeans(already: Node, toInsert: Node)
    requires already.IsDir() && toInsert.IsDir() ==> already.idOrLength != toInsert.idOrLength
    ensures if InsertCheck(already, toInsert) then MayPrecede(toInsert, already) else MayPrecede(already, toInsert)
  {
  }

  lemma InsertedAt(ord: seq<nat>, j: nat, idx: nat)
    requires j <= |ord|
    ensures |Inserted(ord, j, idx)| == |ord| + 1
    ensures forall i :: 0 <= i <= |ord| ==>
              Inserted(ord, j, idx)[i] == if i < j then ord[i] else if i == j then idx else ord[i - 1]
  {
  }

  lemma InsertedDistinct(ord: seq<nat>, j: nat, idx: nat)
    requires j <= |ord| && idx !in ord && Distinct(ord)
    ensures Distinct(Inserted(ord, j, idx))
  {
    InsertedAt(ord, j, idx);
    hide Inserted;
  }

  // The two assignments of the insertion, at place `j`
  function Spliced(a: seq<Node>, curr: nat, idx: nat): seq<Node>
    requires curr < |a| && idx < |a|
  {
    a[idx := a[idx].(nextSibling := a[curr].nextSibling)][curr := a[curr].(nextSibling := idx)]
  }

  lemma SplicedIs(a: seq<Node>, curr: nat, idx: nat)
    requires curr < |a| && idx < |a| && curr != idx
    ensures SameButSiblings(a, Spliced(a, curr, idx)) && |Spliced(a, curr, idx)| == |a|
    ensures Spliced(a, curr, idx)[idx].nextSibling == a[curr].nextSibling && Spliced(a, curr, idx)[curr].nextSibling == idx
    ensures forall x :: 0 <= x < |a| && x != idx && x != curr ==> Spliced(a, curr, idx)[x] == a[x]
  {
  }

  lemma PlaceApart(a: seq<Node>, ord: seq<nat>, j: nat, idx: nat, i: nat)
    requires Threads(a, ord) && j <= |ord| && idx !in ord && ROOT < idx && i < |ord|
    ensures var curr := if j == 0 then ROOT else ord[j - 1];
            curr < |a| == POOL && curr != idx && ord[i] != idx && (i != j - 1 ==> ord[i] != curr)
    ensures ROOT < ord[i] < POOL && a[ord[i]].nextSibling == NextIn(ord, i)
  {
  }

  lemma InsertedLinks(a: seq<Node>, b: seq<Node>, ord: seq<nat>, j: nat, idx: nat)
    requires Threads(a, ord) && j <= |ord| && ROOT < idx < POOL && idx !in ord
    requires var curr := if j == 0 then ROOT else ord[j - 1];
             b == a[idx := a[idx].(nextSibling := a[curr].nextSibling)][curr := a[curr].(nextSibling := idx)]
    ensures SameButSiblings(a, b) && |b| == POOL && b[idx].nextSibling == if j < |ord| then ord[j] else NIL
    ensures b[ROOT].nextSibling == if j == 0 then idx else FirstOf(ord)
    ensures forall i :: 0 <= i < |ord| ==>
              ROOT < ord[i] < POOL && b[ord[i]].nextSibling == if i == j - 1 then idx else NextIn(ord, i)
  {
    var curr := if j == 0 then ROOT else ord[j - 1];
    NextOfPlace(a, ord, j);
    NextOfPlace(a, ord, 0);
    assert b == Spliced(a, curr, idx) && curr != idx;
    SplicedIs(a, curr, idx);
    hide Threads, Distinct, NextIn, Spliced, SameButSiblings;
    forall i | 0 <= i < |ord|
      ensures ROOT < ord[i] < POOL && b[ord[i]].nextSibling == if i == j - 1 then idx else NextIn(ord, i)
    {
      PlaceApart(a, ord, j, idx, i);
    }
    if j > 0 {
      PlaceApart(a, ord, j, idx, j - 1);
    }
  }

  lemma InsertedLink(a: seq<Node>, b: seq<Node>, ord: seq<nat>, j: nat, idx: nat, i: nat)
    requires Threads(a, ord) && j <= |ord| && ROOT < idx < POOL && idx !in ord && i <= |ord|
    requires var curr := if j == 0 then ROOT else ord[j - 1];
             b == a[idx := a[idx].(nextSibling := a[curr].nextSibling)][curr := a[curr].(nextSibling := idx)]
    ensures var s := Inserted(ord, j, idx);
            i < |s| && ROOT < s[i] < POOL == |b| && b[s[i]].nextSibling == NextIn(s, i)
  {
    InsertedAt(ord, j, idx);
    InsertedLinks(a, b, ord, j, idx);
    NextInserted(ord, j, idx, i);
    hide Threads, Distinct, Inserted, NextIn, SameButSiblings;
    if i < j {
      assert Inserted(ord, j, idx)[i] == ord[i];
    } else if i > j {
      assert Inserted(ord, j, idx)[i] == ord[i - 1];
    }
  }

  lemma InsertedThreads(a: seq<Node>, b: seq<Node>, ord: seq<nat>, j: nat, idx: nat)
    requires Threads(a, ord) && j <= |ord| && ROOT < idx < POOL && idx !in ord
    requires var curr := if j == 0 then ROOT else ord[j - 1];
             b == a[idx := a[idx].(nextSibling := a[curr].nextSibling)][curr := a[curr].(nextSibling := idx)]
    ensures Threads(b, Inserted(ord, j, idx)) && SameButSiblings(a, b)
  {
    var s := Inserted(ord, j, idx);
    InsertedAt(ord, j, idx);
    InsertedDistinct(ord, j, idx);
    InsertedLinks(a, b, ord, j, idx);
    FirstInserted(ord, j, idx);
    hide Distinct, SameButSiblings, Inserted, NextIn, FirstOf;
    forall i | 0 <= i < |s|
      ensures ROOT < s[i] < POOL && b[s[i]].nextSibling == NextIn(s, i)
    {
      InsertedLink(a, b, ord, j, idx, i);
    }
  }

  lemma FirstInserted(ord: seq<nat>, j: nat, idx: nat)
    requires j <= |ord|
    ensures FirstOf(Inserted(ord, j, idx)) == if j == 0 then idx else FirstOf(ord)
  {
  }

  lemma NextInserted(ord: seq<nat>, j: nat, idx: nat, i: nat)
    requires j <= |ord| && i <= |ord|
    ensures NextIn(Inserted(ord, j, idx), i) ==
            if i + 1 == j then idx
            else if i == j then (if j < |ord| then ord[j] else NIL)
            else if i < j then NextIn(ord, i) else NextIn(ord, i - 1)
  {
  }

  // insert_check has let the node `x` pass, or has stopped at it.
  ghost predicate Passed(a: seq<Node>, x: nat, idx: nat) {
    x < |a| && idx < |a| && !InsertCheck(a[x], a[idx])
  }

  // Where the chain is cut for it, the new node stands between its neighbours.
  lemma InsertedBetween(a: seq<Node>, ord: seq<nat>, j: nat, idx: nat, m: nat)
    requires Sorted(a, ord) && j <= |ord| && m < |ord| && idx < |a| && ord[m] < |a|
    requires m < j ==> Passed(a, ord[m], idx)
    requires j < |ord| ==> ord[j] < |a| && !Passed(a, ord[j], idx)
    requires IdsApart(a, ord, a[idx])
    ensures if m < j then Precede(a, ord[m], idx) else Precede(a, idx, ord[m])
  {
    hide MayPrecede, InsertCheck;
    if m < j {
      CheckMeans(a[ord[m]], a[idx]);
    } else {
      CheckMeans(a[ord[j]], a[idx]);
      if m > j {
        assert Precede(a, ord[j], ord[m]);
        Precedes(a[idx], a[ord[j]], a[ord[m]]);
      }
    }
  }

  lemma InsertedSorted(a: seq<Node>, ord: seq<nat>, j: nat, idx: nat)
    requires Threads(a, ord) && Sorted(a, ord) && j <= |ord| && idx < POOL && IdsApart(a, ord, a[idx])
    requires forall m :: 0 <= m < j ==> Passed(a, ord[m], idx)
    requires j < |ord| ==> !Passed(a, ord[j], idx)
    ensures Sorted(a, Inserted(ord, j, idx))
  {
    hide Inserted, IdsApart, Precede, Threads, Passed;
    forall m | 0 <= m < |ord|
      ensures if m < j then Precede(a, ord[m], idx) else Precede(a, idx, ord[m])
    {
      NextOfPlace(a, ord, j);
      NextOfPlace(a, ord, m);
      InsertedBetween(a, ord, j, idx, m);
    }
    PutBetween(a, ord, j, idx);
  }

  lemma PutBetween(a: seq<Node>, ord: seq<nat>, j: nat, idx: nat)
    requires Sorted(a, ord) && j <= |ord|
    requires forall m :: 0 <= m < |ord| ==> if m < j then Precede(a, ord[m], idx) else Precede(a, idx, ord[m])
    ensures Sorted(a, Inserted(ord, j, idx))
  {
    var s := Inserted(ord, j, idx);
    InsertedAt(ord, j, idx);
    hide Inserted, Precede;
    forall i, m | 0 <= i < m < |s|
      ensures Precede(a, s[i], s[m])
    {
      if i != j && m != j {
        assert s[i] == ord[if i < j then i else i - 1] && s[m] == ord[if m < j then m else m - 1];
      } else if i == j {
        assert s[m] == ord[m - 1];
      }
    }
  }

  lemma SortedStays(a: seq<Node>, b: seq<Node>, ord: seq<nat>)
    requires Sorted(a, ord) && SameButSiblings(a, b)
    ensures Sorted(b, ord)
  {
    forall i, j | 0 <= i < j < |ord|
      ensures Precede(b, ord[i], ord[j])
    {
      assert Precede(a, ord[i], ord[j]);
    }
  }

  // Only the sibling links differ.
  ghost predicate SameButSiblings(a: seq<Node>, b: seq<Node>) {
    |a| == |b| && forall i :: 0 <= i < |a| ==> b[i] == a[i].(nextSibling := b[i].nextSibling)
  }

  lemma NextOfPlace(a: seq<Node>, ord: seq<nat>, j: nat)
    requires Threads(a, ord) && j <= |ord|
    ensures var curr := if j == 0 then ROOT else ord[j - 1];
            curr < |a| == POOL && a[curr].nextSibling == if j < |ord| then ord[j] else NIL
    ensures j < |ord| ==> ROOT < ord[j] < POOL
  {
    assert j > 0 ==> a[ord[j - 1]].nextSibling == NextIn(ord, j - 1);
  }

  // sorted_list_insert
  method SortedListInsert(tab: NodeTable, idx: nat, ghost ord: seq<nat>) returns (ghost j: nat)
    requires Threads(tab.nodes, ord) && Sorted(tab.nodes, ord) && ROOT < idx < POOL && idx !in ord
    requires IdsApart(tab.nodes, ord, tab.nodes[idx])
    modifies tab`nodes
    ensures j <= |ord| && SameButSiblings(old(tab.nodes), tab.nodes)
    ensures Threads(tab.nodes, Inserted(ord, j, idx)) && Sorted(tab.nodes, Inserted(ord, j, idx))
  {
    hide Sorted, IdsApart, InsertCheck, Threads;
    ghost var a := tab.nodes;
    NextOfPlace(a, ord, 0);
    var curr := ROOT;
    j := 0;
    while true
      invariant j <= |ord| && curr == (if j == 0 then ROOT else ord[j - 1]) && curr < POOL
      invariant tab.nodes == a && forall m :: 0 <= m < j ==> Passed(a, ord[m], idx)
      decreases |ord| - j
    {
      NextOfPlace(a, ord, j);
      var next := tab.nodes[curr].nextSibling;
      if next == NIL || InsertCheck(tab.nodes[next], tab.nodes[idx]) {
        break;
      }
      curr := next;
      j := j + 1;
    }
    NextOfPlace(a, ord, j);
    InsertedSorted(a, ord, j, idx);
    tab.nodes := tab.nodes[idx := tab.nodes[idx].(nextSibling := tab.nodes[curr].nextSibling)];
    tab.nodes := tab.nodes[curr := tab.nodes[curr].(nextSibling := idx)];
    InsertedThreads(a, tab.nodes, ord, j, idx);
    SortedStays(a, tab.nodes, Inserted(ord, j, idx));
  }
}
