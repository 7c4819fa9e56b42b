// The directory tree threaded through the nodes (dev/module/tinyfs/tinyfs.c:1000-1061, 1092-1105, 1280-1362).
module Tree {
  import opened Sequences
  import opened Nor
  import opened Ring
  import opened Codec
  import opened LogReplay
  import opened Nodes
  import opened Index
  import opened Collector

  // The children of `d` are threaded in the order `s`.
  ghost predicate ChainOk(nodes: seq<Node>, nodeSet: set<nat>, d: nat, s: seq<nat>) {
    && d < |nodes| && nodes[d].child == FirstOf(s) && Distinct(s)
    && forall i :: 0 <= i < |s| ==>
         && s[i] in nodeSet && s[i] < |nodes|
         && nodes[s[i]].parentDir == d && nodes[s[i]].nextSibling == NextIn(s, i)
  }

  // Where a walk along the siblings is, and where it goes next
  lemma ChainStep(nodes: seq<Node>, nodeSet: set<nat>, d: nat, s: seq<nat>, i: nat)
    requires ChainOk(nodes, nodeSet, d, s) && |nodes| == POOL && i <= |s|
    ensures d < POOL && (i == 0 ==> nodes[d].child == if s == [] then NIL else s[0])
    ensures i < |s| ==> s[i] < POOL && s[i] != NIL && nodes[s[i]].nextSibling == if i + 1 < |s| then s[i + 1] else NIL
  {
    if i < |s| {
      assert nodes[s[i]].nextSibling == NextIn(s, i);
    }
  }

  // The directories are the root and the nodes that are not records.
  ghost predicate Domain(nodes: seq<Node>, nodeSet: set<nat>, kids: map<nat, seq<nat>>) {
    && |nodes| == POOL && (forall i :: i in nodeSet ==> ROOT < i < POOL)
    && ROOT in kids && nodes[ROOT].IsDir() && nodes[ROOT].idOrLength == 0
    && (forall d :: d in kids ==> d == ROOT || d in nodeSet)
    && (forall i :: i in nodeSet ==> (i in kids <==> nodes[i].IsDir()))
  }

  ghost predicate Chains(nodes: seq<Node>, nodeSet: set<nat>, kids: map<nat, seq<nat>>) {
    forall d :: d in kids ==> ChainOk(nodes, nodeSet, d, kids[d])
  }

  // A node is among its parent's children, and a directory has a greater id than its parent.
  ghost predicate AtHome(nodes: seq<Node>, kids: map<nat, seq<nat>>, i: nat) {
    && i < |nodes| && nodes[i].parentDir < |nodes|
    && nodes[i].parentDir in kids && i in kids[nodes[i].parentDir]
    && (nodes[i].IsDir() ==> nodes[nodes[i].parentDir].idOrLength < nodes[i].idOrLength)
  }

  ghost predicate Homes(nodes: seq<Node>, nodeSet: set<nat>, kids: map<nat, seq<nat>>) {
    forall i :: i in nodeSet ==> AtHome(nodes, kids, i)
  }

  // Every node is a child of exactly one directory.
  ghost predicate TreeOk(nodes: seq<Node>, nodeSet: set<nat>, kids: map<nat, seq<nat>>) {
    Domain(nodes, nodeSet, kids) && Chains(nodes, nodeSet, kids) && Homes(nodes, nodeSet, kids)
  }

  // A node is in the tree once: under its parent, at one place among the parent's children.
  lemma InTreeOnce(nodes: seq<Node>, nodeSet: set<nat>, kids: map<nat, seq<nat>>, i: nat)
    requires TreeOk(nodes, nodeSet, kids)
    ensures i in nodeSet <==> exists d :: d in kids && i in kids[d]
    ensures forall d, e, j, m :: d in kids && e in kids && 0 <= j < |kids[d]| && 0 <= m < |kids[e]| ==>
              kids[d][j] == i && kids[e][m] == i ==> i < |nodes| && d == e == nodes[i].parentDir && j == m
  {
    hide Domain;
    forall d, j | d in kids && 0 <= j < |kids[d]| && kids[d][j] == i
      ensures i in nodeSet && i < |nodes| && nodes[i].parentDir == d && Distinct(kids[d])
    {
      assert ChainOk(nodes, nodeSet, d, kids[d]);
    }
    if i in nodeSet {
      assert AtHome(nodes, kids, i);
    }
    hide TreeOk;
  }

  // The links are the same, and the ids of directories.
  ghost predicate SameTree(a: seq<Node>, b: seq<Node>) {
    |a| == |b| && forall i :: 0 <= i < |a| ==>
      && b[i].child == a[i].child && b[i].parentDir == a[i].parentDir && b[i].nextSibling == a[i].nextSibling
      && (a[i].IsDir() ==> b[i].idOrLength == a[i].idOrLength)
  }

  lemma TreeSame(a: seq<Node>, b: seq<Node>, nodeSet: set<nat>, kids: map<nat, seq<nat>>)
    requires TreeOk(a, nodeSet, kids) && SameTree(a, b)
    ensures TreeOk(b, nodeSet, kids)
  {
    forall d | d in kids
      ensures ChainOk(b, nodeSet, d, kids[d])
    {
      assert ChainOk(a, nodeSet, d, kids[d]);
    }
    hide ChainOk;
    HomesSame(a, b, nodeSet, kids);
    hide AtHome;
    assert Domain(b, nodeSet, kids);
  }

  lemma HomesSame(a: seq<Node>, b: seq<Node>, nodeSet: set<nat>, kids: map<nat, seq<nat>>)
    requires Domain(a, nodeSet, kids) && Homes(a, nodeSet, kids) && SameTree(a, b)
    ensures Homes(b, nodeSet, kids)
  {
    forall i | i in nodeSet
      ensures AtHome(b, kids, i)
    {
      assert AtHome(a, kids, i);
    }
  }

  lemma TreeMoves(a: seq<Node>, b: seq<Node>, nodeSet: set<nat>, kids: map<nat, seq<nat>>)
    requires TreeOk(a, nodeSet, kids) && SameButPlace(a, b)
    ensures TreeOk(b, nodeSet, kids)
  {
    hide TreeOk;
    TreeSame(a, b, nodeSet, kids);
  }

  lemma DirIsNode(a: seq<Node>, nodeSet: set<nat>, kids: map<nat, seq<nat>>, d: nat)
    requires TreeOk(a, nodeSet, kids) && d in kids
    ensures d < |a| == POOL && a[d].IsDir() && (d == ROOT || d in nodeSet)
    ensures Domain(a, nodeSet, kids) && Homes(a, nodeSet, kids) && kids.Keys <= nodeSet + {ROOT}
  {
  }

  function KidsPut(kids: map<nat, seq<nat>>, d: nat, idx: nat, isDir: bool): map<nat, seq<nat>>
    requires d in kids
  {
    var k := kids[d := [idx] + kids[d]];
    if isDir then k[idx := []] else k
  }

  lemma ChainPuts(a: seq<Node>, nodeSet: set<nat>, d: nat, s: seq<nat>, idx: nat, n: Node)
    requires ChainOk(a, nodeSet, d, s) && idx !in nodeSet && idx < |a| && idx != d && d !in s
    requires n.parentDir == d && n.nextSibling == a[d].child
    ensures ChainOk(a[idx := n][d := a[d].(child := idx)], nodeSet + {idx}, d, [idx] + s)
  {
    var t, b := [idx] + s, a[idx := n][d := a[d].(child := idx)];
    forall i | 0 <= i < |t|
      ensures t[i] in nodeSet + {idx} && t[i] < |b| && b[t[i]].parentDir == d && b[t[i]].nextSibling == NextIn(t, i)
    {
      if i > 0 {
        assert t[i] == s[i - 1] && NextIn(t, i) == NextIn(s, i - 1) && a[s[i - 1]].nextSibling == NextIn(s, i - 1);
      }
    }
  }

  lemma ChainIgnores(a: seq<Node>, nodeSet: set<nat>, d: nat, idx: nat, n: Node, e: nat, t: seq<nat>)
    requires ChainOk(a, nodeSet, e, t) && e != d && e != idx && d < |a| && idx < |a| && idx !in nodeSet
    ensures ChainOk(a[idx := n][d := a[d].(child := idx)], nodeSet + {idx}, e, t)
  {
  }

  lemma DomainPuts(a: seq<Node>, nodeSet: set<nat>, kids: map<nat, seq<nat>>, d: nat, idx: nat, n: Node)
    requires Domain(a, nodeSet, kids) && d in kids && idx !in nodeSet && ROOT < idx < POOL
    ensures Domain(a[idx := n][d := a[d].(child := idx)], nodeSet + {idx}, KidsPut(kids, d, idx, n.IsDir()))
  {
  }

  // A new node becomes the first child of `d`.
  lemma TreePuts(a: seq<Node>, nodeSet: set<nat>, kids: map<nat, seq<nat>>, d: nat, idx: nat, n: Node)
    requires TreeOk(a, nodeSet, kids) && d in kids && idx !in nodeSet && ROOT < idx < POOL
    requires n.parentDir == d && n.nextSibling == a[d].child
    requires d < |a| && (n.IsDir() ==> n.child == NIL && a[d].idOrLength < n.idOrLength)
    ensures TreeOk(a[idx := n][d := a[d].(child := idx)], nodeSet + {idx}, KidsPut(kids, d, idx, n.IsDir()))
  {
    var b, kids' := a[idx := n][d := a[d].(child := idx)], KidsPut(kids, d, idx, n.IsDir());
    DomainPuts(a, nodeSet, kids, d, idx, n);
    NotOwnKid(a, nodeSet, kids, d);
    forall e | e in kids'
      ensures ChainOk(b, nodeSet + {idx}, e, kids'[e])
    {
      if e == d {
        ChainPuts(a, nodeSet, d, kids[d], idx, n);
      } else if e != idx {
        ChainIgnores(a, nodeSet, d, idx, n, e, kids[e]);
      }
    }
    hide ChainOk, Domain;
    HomesPut(a, nodeSet, kids, d, idx, n);
  }

  lemma HomesPut(a: seq<Node>, nodeSet: set<nat>, kids: map<nat, seq<nat>>, d: nat, idx: nat, n: Node)
    requires Homes(a, nodeSet, kids) && Domain(a, nodeSet, kids) && d in kids && idx !in nodeSet && ROOT < idx < POOL
    requires n.parentDir == d && d < |a| && (n.IsDir() ==> a[d].idOrLength < n.idOrLength)
    ensures Homes(a[idx := n][d := a[d].(child := idx)], nodeSet + {idx}, KidsPut(kids, d, idx, n.IsDir()))
  {
    var b, kids' := a[idx := n][d := a[d].(child := idx)], KidsPut(kids, d, idx, n.IsDir());
    forall i | i in nodeSet + {idx}
      ensures AtHome(b, kids', i)
    {
      if i == idx {
        assert kids'[d][0] == idx;
      } else {
        assert AtHome(a, kids, i);
      }
    }
  }

  // The child `s[i]` of `d`, with no children of its own, is taken out of the threading.
  ghost predicate Unlinked(a: seq<Node>, b: seq<Node>, d: nat, s: seq<nat>, i: nat)
    requires i < |s| && d < |a| && forall j :: 0 <= j < |s| ==> s[j] < |a|
  {
    var next := a[s[i]].nextSibling;
    b == if i == 0 then a[d := a[d].(child := next)] else a[s[i - 1] := a[s[i - 1]].(nextSibling := next)]
  }

  lemma WithoutIs(s: seq<nat>, i: nat)
    requires i < |s| && Distinct(s)
    ensures var t := Without(s, i);
            && |t| == |s| - 1 && Distinct(t) && s[i] !in t
            && (forall j :: 0 <= j < |t| ==> t[j] == if j < i then s[j] else s[j + 1])
            && FirstOf(t) == (if i == 0 then NextIn(s, 0) else s[0])
  {
  }

  lemma NextWithout(s: seq<nat>, i: nat, j: nat)
    requires i < |s| && j < |s| - 1
    ensures NextIn(Without(s, i), j) == if j + 1 == i then NextIn(s, i) else if j < i then NextIn(s, j) else NextIn(s, j + 1)
  {
  }

  // The links of the threading without its member `i`
  lemma UnlinkedIs(a: seq<Node>, b: seq<Node>, nodeSet: set<nat>, d: nat, s: seq<nat>, i: nat)
    requires ChainOk(a, nodeSet, d, s) && i < |s| && d !in s && Unlinked(a, b, d, s, i)
    ensures |b| == |a| && b[d].child == if i == 0 then NextIn(s, 0) else s[0]
    ensures forall j :: 0 <= j < |s| && j != i ==>
              s[j] < |b| && b[s[j]].parentDir == d && b[s[j]].nextSibling == if j + 1 == i then NextIn(s, i) else NextIn(s, j)
  {
    assert a[s[i]].nextSibling == NextIn(s, i);
    forall j | 0 <= j < |s| && j != i
      ensures s[j] < |b| && b[s[j]].parentDir == d && b[s[j]].nextSibling == if j + 1 == i then NextIn(s, i) else NextIn(s, j)
    {
      assert a[s[j]].nextSibling == NextIn(s, j) && (i > 0 && j != i - 1 ==> s[j] != s[i - 1]);
    }
  }

  lemma LinkWithout(a: seq<Node>, b: seq<Node>, nodeSet: set<nat>, d: nat, s: seq<nat>, i: nat, j: nat)
    requires ChainOk(a, nodeSet, d, s) && i < |s| && d !in s && Unlinked(a, b, d, s, i) && j < |Without(s, i)|
    ensures var t := Without(s, i);
            t[j] in nodeSet - {s[i]} && t[j] < |b| && b[t[j]].parentDir == d && b[t[j]].nextSibling == NextIn(t, j)
  {
    var k := if j < i then j else j + 1;
    WithoutAt(s, i, j);
    WithoutIs(s, i);
    NextWithout(s, i, j);
    UnlinkedIs(a, b, nodeSet, d, s, i);
    assert s[k] in nodeSet && s[k] != s[i];
    hide Unlinked, NextIn, FirstOf, Distinct, Without, ChainOk;
    assert Without(s, i)[j] == s[k];
  }

  lemma WithoutAt(s: seq<nat>, i: nat, j: nat)
    requires i < |s| && j < |Without(s, i)|
    ensures |Without(s, i)| == |s| - 1 && Without(s, i)[j] == s[if j < i then j else j + 1]
  {
  }

  lemma ChainDrops(a: seq<Node>, b: seq<Node>, nodeSet: set<nat>, d: nat, s: seq<nat>, i: nat)
    requires ChainOk(a, nodeSet, d, s) && i < |s| && d !in s && Unlinked(a, b, d, s, i)
    ensures ChainOk(b, nodeSet - {s[i]}, d, Without(s, i))
  {
    var t := Without(s, i);
    WithoutIs(s, i);
    UnlinkedIs(a, b, nodeSet, d, s, i);
    assert forall j :: 0 <= j < |s| ==> s[j] in nodeSet;
    assert d < |b| && b[d].child == FirstOf(t) && Distinct(t);
    hide *;
    forall j | 0 <= j < |t|
      ensures t[j] in nodeSet - {s[i]} && t[j] < |b| && b[t[j]].parentDir == d && b[t[j]].nextSibling == NextIn(t, j)
    {
      LinkWithout(a, b, nodeSet, d, s, i, j);
    }
  }

  lemma ChainElsewhere(a: seq<Node>, b: seq<Node>, nodeSet: set<nat>, d: nat, s: seq<nat>, i: nat, e: nat, t: seq<nat>)
    requires ChainOk(a, nodeSet, d, s) && i < |s| && Unlinked(a, b, d, s, i) && ChainOk(a, nodeSet, e, t) && e != d
    ensures ChainOk(b, nodeSet - {s[i]}, e, t)
  {
    forall j | 0 <= j < |t|
      ensures t[j] in nodeSet - {s[i]} && b[t[j]].parentDir == e && b[t[j]].nextSibling == NextIn(t, j)
    {
      assert a[t[j]].parentDir == e;
      assert a[s[i]].parentDir == d && (i > 0 ==> a[s[i - 1]].parentDir == d);
    }
  }

  lemma DomainDrops(a: seq<Node>, b: seq<Node>, nodeSet: set<nat>, kids: map<nat, seq<nat>>, d: nat, i: nat)
    requires Domain(a, nodeSet, kids) && d in kids && i < |kids[d]|
    requires ChainOk(a, nodeSet, d, kids[d]) && Unlinked(a, b, d, kids[d], i)
    ensures var x := kids[d][i];
            Domain(b, nodeSet - {x}, kids[d := Without(kids[d], i)] - {x})
  {
    UnlinkedKinds(a, b, nodeSet, kids, d, i);
    hide ChainOk, Unlinked, Without;
  }

  // Kinds and the root's id stay.
  lemma UnlinkedKinds(a: seq<Node>, b: seq<Node>, nodeSet: set<nat>, kids: map<nat, seq<nat>>, d: nat, i: nat)
    requires Domain(a, nodeSet, kids) && d in kids && i < |kids[d]|
    requires ChainOk(a, nodeSet, d, kids[d]) && Unlinked(a, b, d, kids[d], i)
    ensures |b| == |a| && b[ROOT].idOrLength == a[ROOT].idOrLength && b[ROOT].IsDir()
    ensures forall j :: j in nodeSet ==> j < |b| && b[j].IsDir() == a[j].IsDir()
    ensures kids[d][i] in nodeSet && kids[d][i] != ROOT
  {
    var s := kids[d];
    assert a[s[i]].nextSibling == NextIn(s, i) && (i + 1 < |s| ==> s[i + 1] in nodeSet);
    assert i > 0 ==> s[i - 1] in nodeSet;
  }

  lemma TreeDrops(a: seq<Node>, b: seq<Node>, nodeSet: set<nat>, kids: map<nat, seq<nat>>, d: nat, i: nat)
    requires TreeOk(a, nodeSet, kids) && d in kids && i < |kids[d]|
    requires kids[d][i] in kids ==> kids[kids[d][i]] == []
    requires ChainOk(a, nodeSet, d, kids[d]) && Unlinked(a, b, d, kids[d], i)
    ensures var x := kids[d][i];
            TreeOk(b, nodeSet - {x}, kids[d := Without(kids[d], i)] - {x})
  {
    NotOwnKid(a, nodeSet, kids, d);
    hide ChainOk, Unlinked, Domain, AtHome;
    DomainDrops(a, b, nodeSet, kids, d, i);
    ChainsDrop(a, b, nodeSet, kids, d, i);
    HomesDrop(a, b, nodeSet, kids, d, i);
  }

  lemma ChainsDrop(a: seq<Node>, b: seq<Node>, nodeSet: set<nat>, kids: map<nat, seq<nat>>, d: nat, i: nat)
    requires Chains(a, nodeSet, kids) && d in kids && i < |kids[d]| && d !in kids[d]
    requires ChainOk(a, nodeSet, d, kids[d]) && Unlinked(a, b, d, kids[d], i)
    ensures var x := kids[d][i];
            Chains(b, nodeSet - {x}, kids[d := Without(kids[d], i)] - {x})
  {
    var s, x := kids[d], kids[d][i];
    var kids' := kids[d := Without(s, i)] - {x};
    ChainDrops(a, b, nodeSet, d, s, i);
    forall e | e in kids'
      ensures ChainOk(b, nodeSet - {x}, e, kids'[e])
    {
      if e != d {
        assert ChainOk(a, nodeSet, e, kids[e]);
        ChainElsewhere(a, b, nodeSet, d, s, i, e, kids[e]);
      }
    }
  }

  lemma HomesDrop(a: seq<Node>, b: seq<Node>, nodeSet: set<nat>, kids: map<nat, seq<nat>>, d: nat, i: nat)
    requires Homes(a, nodeSet, kids) && d in kids && i < |kids[d]| && d < |a| && (d in nodeSet ==> a[d].IsDir())
    requires kids[d][i] in kids ==> kids[kids[d][i]] == []
    requires ChainOk(a, nodeSet, d, kids[d]) && Unlinked(a, b, d, kids[d], i)
    ensures var x := kids[d][i];
            Homes(b, nodeSet - {x}, kids[d := Without(kids[d], i)] - {x})
  {
    var x := kids[d][i];
    SameParents(a, b, nodeSet, d, kids[d], i);
    hide ChainOk, Unlinked, Without;
    forall j | j in nodeSet - {x}
      ensures AtHome(b, kids[d := Without(kids[d], i)] - {x}, j)
    {
      assert AtHome(a, kids, j);
      HomeStays(kids, d, i, a[j].parentDir, j);
    }
  }

  lemma SameParents(a: seq<Node>, b: seq<Node>, nodeSet: set<nat>, d: nat, s: seq<nat>, i: nat)
    requires ChainOk(a, nodeSet, d, s) && i < |s| && Unlinked(a, b, d, s, i)
    ensures |b| == |a| && forall j :: 0 <= j < |a| ==> b[j].parentDir == a[j].parentDir && b[j].idOrLength == a[j].idOrLength
    ensures forall j :: j in nodeSet && j < |a| && b[j].IsDir() ==> a[j].IsDir() || j == d
  {
  }

  lemma HomeStays(kids: map<nat, seq<nat>>, d: nat, i: nat, e: nat, j: nat)
    requires d in kids && i < |kids[d]| && e in kids && j in kids[e] && j != kids[d][i]
    requires kids[d][i] in kids ==> kids[kids[d][i]] == []
    ensures var kids' := kids[d := Without(kids[d], i)] - {kids[d][i]};
            e in kids' && j in kids'[e]
  {
    if e == d {
      var m :| 0 <= m < |kids[d]| && kids[d][m] == j;
      assert Without(kids[d], i)[if m < i then m else m - 1] == j;
    }
  }

  // Ids grow downwards, so no directory is its own child.
  lemma NotOwnKid(nodes: seq<Node>, nodeSet: set<nat>, kids: map<nat, seq<nat>>, d: nat)
    requires TreeOk(nodes, nodeSet, kids) && d in kids
    ensures d !in kids[d] && d < |nodes| && nodes[d].IsDir()
  {
    assert ChainOk(nodes, nodeSet, d, kids[d]);
    assert d in nodeSet ==> AtHome(nodes, kids, d);
  }

  // ---- The threading of the tree does not matter to the log ----

  // Only the links among `keep` differ, and no directory becomes a record or the other way round.
  ghost predicate SameButLinks(a: seq<Node>, b: seq<Node>, keep: set<nat>) {
    |a| == |b| && forall i :: i in keep && i < |a| ==>
      b[i] == a[i].(child := b[i].child, nextSibling := b[i].nextSibling) && b[i].IsDir() == a[i].IsDir()
  }

  lemma ListsIgnoreLinks(a: seq<Node>, b: seq<Node>, list: seq<TinyList>, lst: seq<seq<nat>>, keep: set<nat>)
    requires ListsOk(a, list, lst) && SameButLinks(a, b, keep)
    requires forall p, j :: 0 <= p < N && 0 <= j < |lst[p]| ==> lst[p][j] in keep
    ensures ListsOk(b, list, lst)
  {
    forall p | 0 <= p < N
      ensures ListOk(b, list[p], lst[p], p)
    {
      assert ListOk(a, list[p], lst[p], p);
      SizeSame(a, b, lst[p]);
    }
  }

  lemma IndexIgnoresLinks(a: seq<Node>, b: seq<Node>, list: seq<TinyList>, lst: seq<seq<nat>>,
                          who: map<Key, nat>, key: map<nat, Key>, live: Live, keep: set<nat>)
    requires ListsOk(a, list, lst) && IndexOk(a, lst, who, key, live) && SameButLinks(a, b, keep) && key.Keys <= keep
    ensures ListsOk(b, list, lst) && IndexOk(b, lst, who, key, live)
  {
    hide ListOk;
    ListsIgnoreLinks(a, b, list, lst, keep);
  }

  lemma ParentedIgnoresLinks(a: seq<Node>, b: seq<Node>, key: map<nat, Key>, live: Live, kids: map<nat, seq<nat>>)
    requires Parented(a, key, live) && SameButLinks(a, b, key.Keys + {ROOT})
    requires Homes(a, key.Keys, kids) && Domain(a, key.Keys, kids)
    ensures Parented(b, key, live)
  {
    forall i | i in key && i < |b| && key[i] in live && IsAdd(live[key[i]].e)
      ensures b[i].parentDir < |b| && b[b[i].parentDir].idOrLength == live[key[i]].e.parent
    {
      assert AtHome(a, kids, i);
    }
  }

  lemma OthersLinked(a: seq<Node>, keep: set<nat>, d: nat, idx: nat, n: Node)
    requires d < |a| && idx < |a| && idx !in keep && idx != d && a[d].IsDir() && idx != 0
    ensures SameButLinks(a, a[idx := n][d := a[d].(child := idx)], keep)
    ensures SameButLinks(a[idx := n], a[idx := n][d := a[d].(child := idx)], keep)
  {
  }

  // A node that stands for nothing yet becomes the first child of `d`.
  lemma Adopts(a: seq<Node>, list: seq<TinyList>, lst: seq<seq<nat>>, who: map<Key, nat>, key: map<nat, Key>, live: Live,
               kids: map<nat, seq<nat>>, d: nat, idx: nat, n: Node)
    requires ListsOk(a, list, lst) && IndexOk(a, lst, who, key, live) && Parented(a, key, live)
    requires TreeOk(a, key.Keys, kids) && d in kids && idx !in key && ROOT < idx < POOL
    requires d < |a| && n.parentDir == d && n.nextSibling == a[d].child
    requires n.IsDir() ==> n.child == NIL && a[d].idOrLength < n.idOrLength
    ensures idx < |a| && idx != d
    ensures var c := a[idx := n][d := a[d].(child := idx)];
            && ListsOk(c, list, lst) && IndexOk(c, lst, who, key, live) && Parented(c, key, live)
            && TreeOk(c, key.Keys + {idx}, KidsPut(kids, d, idx, n.IsDir()))
            && (forall i :: 0 <= i < |a| && i != idx ==> c[i].idOrLength == a[i].idOrLength) && c[idx] == n && c[d].IsDir()
  {
    hide ListsOk, IndexOk, Parented, TreeOk, Domain, Homes, SameButLinks;
    DirIsNode(a, key.Keys, kids, d);
    var b, c := a[idx := n], a[idx := n][d := a[d].(child := idx)];
    OthersLinked(a, key.Keys + {ROOT}, d, idx, n);
    OthersLinked(a, key.Keys, d, idx, n);
    TreePuts(a, key.Keys, kids, d, idx, n);
    IndexIgnores(a, list, lst, who, key, live, idx, n);
    IndexIgnoresLinks(b, c, list, lst, who, key, live, key.Keys);
    ParentedIgnoresLinks(a, c, key, live, kids);
  }

  // ---- What the tree says about the log's meaning ----

  predicate SameName(e: Entry, f: Entry) {
    e.DirAdd? && f.DirAdd? && e.parent == f.parent && e.name == f.name
  }

  // Ids grow downwards and stay below dir_id_max; no two directories share parent and name.
  ghost predicate Meaningful(live: Live, dirIdMax: nat) {
    && (forall k :: k in live && live[k].e.DirAdd? ==> live[k].e.parent < live[k].e.id <= dirIdMax)
    && (forall j, k :: j in live && k in live && SameName(live[j].e, live[k].e) ==> j == k)
  }

  ghost predicate Joined(nodes: seq<Node>, lst: seq<seq<nat>>, who: map<Key, nat>, key: map<nat, Key>, live: Live,
                         kids: map<nat, seq<nat>>, dirIdMax: nat)
  {
    && IndexOk(nodes, lst, who, key, live) && TreeOk(nodes, key.Keys, kids)
    && Parented(nodes, key, live) && Meaningful(live, dirIdMax)
  }

  // A directory is known by its id.
  lemma DirById(nodes: seq<Node>, lst: seq<seq<nat>>, who: map<Key, nat>, key: map<nat, Key>, live: Live,
                kids: map<nat, seq<nat>>, dirIdMax: nat, d: nat)
    requires Joined(nodes, lst, who, key, live, kids, dirIdMax) && d in kids
    ensures d < |nodes|
    ensures var id := nodes[d].idOrLength;
            if d == ROOT then id == 0 else id > 0 && Dir(id) in live && who[Dir(id)] == d && key[d] == Dir(id)
  {
    hide Chains, Homes, IndexOk, Parented, NodeMatches;
    if d != ROOT {
      WhereListed(nodes, lst, who, key, live, d);
      MatchedDir(nodes[d], live[key[d]]);
    }
  }

  lemma MatchedDir(n: Node, it: Item)
    requires NodeMatches(n, it)
    ensures n.IsDir() ==> it.e == DirAdd(n.name, it.e.parent, n.idOrLength) && KeyOf(it.e) == Dir(n.idOrLength)
    ensures !n.IsDir() ==> it.e.RecordAdd? && KeyOf(it.e) == Rec(it.e.parent, n.name) && |it.e.data| == n.idOrLength
  {
  }

  lemma SameDir(nodes: seq<Node>, lst: seq<seq<nat>>, who: map<Key, nat>, key: map<nat, Key>, live: Live,
                kids: map<nat, seq<nat>>, dirIdMax: nat, d: nat, e: nat)
    requires Joined(nodes, lst, who, key, live, kids, dirIdMax) && d in kids && e in kids
    requires d < |nodes| && e < |nodes| && nodes[d].idOrLength == nodes[e].idOrLength
    ensures d == e
  {
    DirById(nodes, lst, who, key, live, kids, dirIdMax, d);
    DirById(nodes, lst, who, key, live, kids, dirIdMax, e);
  }

  // The live entries with parent id `id` are exactly the children of the directory with that id.
  lemma ChildOf(nodes: seq<Node>, lst: seq<seq<nat>>, who: map<Key, nat>, key: map<nat, Key>, live: Live,
                kids: map<nat, seq<nat>>, dirIdMax: nat, d: nat, k: Key)
    requires Joined(nodes, lst, who, key, live, kids, dirIdMax) && d in kids && k in live
    ensures d < |nodes| && who[k] in key && who[k] < |nodes| && NodeMatches(nodes[who[k]], live[k])
    ensures key[who[k]] == k && (live[k].e.parent == nodes[d].idOrLength <==> who[k] in kids[d])
  {
    var x := who[k];
    assert key[x] == k && NodeMatches(nodes[x], live[k]) && AtHome(nodes, kids, x);
    var e := nodes[x].parentDir;
    assert nodes[e].idOrLength == live[k].e.parent;
    DirById(nodes, lst, who, key, live, kids, dirIdMax, d);
    if nodes[e].idOrLength == nodes[d].idOrLength {
      SameDir(nodes, lst, who, key, live, kids, dirIdMax, d, e);
    }
    if x in kids[d] {
      assert ChainOk(nodes, key.Keys, d, kids[d]);
    }
  }

  predicate IsRecordNamed(n: Node, name: u16) { !n.IsDir() && n.name == name }

  predicate IsDirNamed(n: Node, name: u16) { n.IsDir() && n.name == name }

  // A child is a live entry with the directory's id as its parent.
  lemma KidIs(nodes: seq<Node>, lst: seq<seq<nat>>, who: map<Key, nat>, key: map<nat, Key>, live: Live,
              kids: map<nat, seq<nat>>, dirIdMax: nat, d: nat, x: nat)
    requires Joined(nodes, lst, who, key, live, kids, dirIdMax) && d in kids && x in kids[d]
    ensures d < |nodes| && x < |nodes| && x in key && key[x] in live && who[key[x]] == x && key[x] == KeyOf(live[key[x]].e)
    ensures NodeMatches(nodes[x], live[key[x]]) && live[key[x]].e.parent == nodes[d].idOrLength && nodes[x].parentDir == d
    ensures ROOT < x
  {
    assert ChainOk(nodes, key.Keys, d, kids[d]);
    hide TreeOk, Listed;
    assert key[x] in live && NodeMatches(nodes[x], live[key[x]]);
  }

  lemma MatchedPlace(n: Node, it: Item)
    requires NodeMatches(n, it)
    ensures n.section == Phys(it.at.k) && n.offset == it.at.off
  {
  }

  // Looking a record up among the children finds the live record of that name, if there is one.
  lemma RecordHere(nodes: seq<Node>, lst: seq<seq<nat>>, who: map<Key, nat>, key: map<nat, Key>, live: Live,
                   kids: map<nat, seq<nat>>, dirIdMax: nat, d: nat, name: u16)
    requires Joined(nodes, lst, who, key, live, kids, dirIdMax) && d in kids
    ensures d < |nodes|
    ensures var k := Rec(nodes[d].idOrLength, name);
            && (k in live ==> k in who && who[k] in kids[d] && who[k] < |nodes| && IsRecordNamed(nodes[who[k]], name))
            && (forall x :: x in kids[d] && x < |nodes| && IsRecordNamed(nodes[x], name) ==> x in key && key[x] == k && k in live)
  {
    var k := Rec(nodes[d].idOrLength, name);
    if k in live {
      ChildOf(nodes, lst, who, key, live, kids, dirIdMax, d, k);
      WhereListed(nodes, lst, who, key, live, who[k]);
      MatchedDir(nodes[who[k]], live[k]);
    }
    hide Joined, NodeMatches;
    assert d < |nodes| by {
      DirById(nodes, lst, who, key, live, kids, dirIdMax, d);
    }
    forall x | x in kids[d] && x < |nodes| && IsRecordNamed(nodes[x], name)
      ensures x in key && key[x] == k && k in live
    {
      KidIs(nodes, lst, who, key, live, kids, dirIdMax, d, x);
      MatchedDir(nodes[x], live[key[x]]);
    }
  }

  // The same for a directory.
  lemma DirHere(nodes: seq<Node>, lst: seq<seq<nat>>, who: map<Key, nat>, key: map<nat, Key>, live: Live,
                kids: map<nat, seq<nat>>, dirIdMax: nat, d: nat, name: u16)
    requires Joined(nodes, lst, who, key, live, kids, dirIdMax) && d in kids
    ensures d < |nodes|
    ensures forall k :: k in live && live[k].e.DirAdd? && live[k].e.name == name && live[k].e.parent == nodes[d].idOrLength ==>
              k in who && who[k] in kids[d] && who[k] < |nodes| && IsDirNamed(nodes[who[k]], name)
    ensures forall x :: x in kids[d] && x < |nodes| && IsDirNamed(nodes[x], name) ==>
              x in key && key[x] in live && live[key[x]].e == DirAdd(name, nodes[d].idOrLength, nodes[x].idOrLength)
  {
    forall k | k in live && live[k].e.DirAdd? && live[k].e.name == name && live[k].e.parent == nodes[d].idOrLength
      ensures k in who && who[k] in kids[d] && who[k] < |nodes| && IsDirNamed(nodes[who[k]], name)
    {
      ChildOf(nodes, lst, who, key, live, kids, dirIdMax, d, k);
    }
    forall x | x in kids[d] && x < |nodes| && IsDirNamed(nodes[x], name)
      ensures x in key && key[x] in live && live[key[x]].e == DirAdd(name, nodes[d].idOrLength, nodes[x].idOrLength)
    {
      KidIs(nodes, lst, who, key, live, kids, dirIdMax, d, x);
    }
  }

  // ---- What the operations do to what the log means ----

  lemma {:induction false} PairsCount(who: map<Key, nat>, key: map<nat, Key>)
    requires forall k :: k in who ==> who[k] in key && key[who[k]] == k
    requires forall i :: i in key ==> key[i] in who && who[key[i]] == i
    ensures |who| == |key|
    decreases |who|
  {
    if k :| k in who {
      var who', key' := who - {k}, key - {who[k]};
      assert who'.Keys == who.Keys - {k} && key'.Keys == key.Keys - {who[k]};
      assert |who| == |who.Keys| && |key| == |key.Keys| && |who'| == |who'.Keys| && |key'| == |key'.Keys|;
      PairsCount(who', key');
    } else {
      assert who.Keys == {};
      assert key.Keys == {};
    }
  }

  lemma RootIsNoKey(nodes: seq<Node>, lst: seq<seq<nat>>, who: map<Key, nat>, key: map<nat, Key>, live: Live)
    requires IndexOk(nodes, lst, who, key, live)
    ensures ROOT !in key.Keys && |key| == |key.Keys|
  {
    hide Listed, Paired, NodeMatches;
  }

  // As many entries are live as there are nodes.
  lemma LiveCounts(nodes: seq<Node>, lst: seq<seq<nat>>, who: map<Key, nat>, key: map<nat, Key>, live: Live)
    requires IndexOk(nodes, lst, who, key, live)
    ensures |live| == |key| && |key.Keys + {ROOT}| == |live| + 1
  {
    hide Described, Listed;
    PairsCount(who, key);
    assert |live| == |live.Keys| == |who.Keys| == |who| == |key|;
    RootIsNoKey(nodes, lst, who, key, live);
    assert |key.Keys + {ROOT}| == |key.Keys| + 1;
  }

  lemma ParentedAdds(a: seq<Node>, b: seq<Node>, key: map<nat, Key>, key': map<nat, Key>, l: Live, l': Live,
                     idx: nat, e: Entry)
    requires Parented(a, key, l) && SameButPlace(a, b) && Added(l, l', key, key', idx, e) && KeyOf(e) !in l
    requires idx !in key && idx < |a| && a[idx].parentDir < |a| && IsAdd(e) && a[a[idx].parentDir].idOrLength == e.parent
    requires forall i :: i in key ==> key[i] in l
    ensures Parented(b, key', l')
  {
    forall i | i in key' && i < |b| && key'[i] in l' && IsAdd(l'[key'[i]].e)
      ensures b[i].parentDir < |b| && b[b[i].parentDir].idOrLength == l'[key'[i]].e.parent
    {
      if i != idx {
        assert key[i] in l && l'[key[i]] == l[key[i]];
      }
    }
  }

  lemma MeansMore(l: Live, l': Live, key: map<nat, Key>, key': map<nat, Key>, idx: nat, e: Entry, dirIdMax: nat, max: nat)
    requires Meaningful(l, dirIdMax) && Added(l, l', key, key', idx, e) && dirIdMax <= max
    requires e.DirAdd? ==> e.parent < e.id <= max && forall k :: k in l ==> !SameName(l[k].e, e)
    ensures Meaningful(l', max)
  {
    assert forall k :: k in l' && k != KeyOf(e) ==> k in l && l'[k] == l[k];
    assert l'[KeyOf(e)].e == e;
  }

  lemma MeansSame(l: Live, l': Live, dirIdMax: nat)
    requires Meaningful(l, dirIdMax) && SameEntries(l, l')
    ensures Meaningful(l', dirIdMax)
  {
  }

  lemma MeansLess(l: Live, keys: set<Key>, dirIdMax: nat)
    requires Meaningful(l, dirIdMax)
    ensures Meaningful(l - keys, dirIdMax)
  {
  }

  // ---- The abstract state ----

  type Contents = map<Key, Entry>

  ghost function EntriesOf(live: Live): Contents {
    map k | k in live :: live[k].e
  }

  // The ids of the directories, by node.
  ghost function DirsOf(nodes: seq<Node>, kids: map<nat, seq<nat>>): map<nat, u16> {
    map d | d in kids && d < |nodes| :: nodes[d].idOrLength
  }

  lemma SameContents(l: Live, l': Live)
    requires SameEntries(l, l')
    ensures EntriesOf(l') == EntriesOf(l) && |l'| == |l|
  {
    assert |l'| == |l'.Keys| && |l| == |l.Keys|;
  }

  lemma AddedContents(l: Live, l': Live, key: map<nat, Key>, key': map<nat, Key>, idx: nat, e: Entry)
    requires Added(l, l', key, key', idx, e)
    ensures EntriesOf(l') == EntriesOf(l)[KeyOf(e) := e] && key'.Keys == key.Keys + {idx}
  {
  }

  lemma SameDirs(a: seq<Node>, b: seq<Node>, kids: map<nat, seq<nat>>)
    requires SameButPlace(a, b)
    ensures DirsOf(b, kids) == DirsOf(a, kids) && |b| == |a|
  {
  }

  // An entry has been added for the node `idx`, which was in the tree already.
  lemma Enters(a: seq<Node>, b: seq<Node>, lst: seq<seq<nat>>, who: map<Key, nat>, key: map<nat, Key>, key': map<nat, Key>,
               live: Live, live': Live, kids: map<nat, seq<nat>>, idx: nat, e: Entry, dirIdMax: nat, max: nat)
    requires IndexOk(b, lst, who, key', live') && Added(live, live', key, key', idx, e) && SameButPlace(a, b)
    requires TreeOk(a, key.Keys + {idx}, kids) && Parented(a, key, live) && Meaningful(live, dirIdMax)
    requires idx !in key && idx < |a| && a[idx].parentDir < |a| && a[a[idx].parentDir].idOrLength == e.parent
    requires KeyOf(e) !in live && IsAdd(e) && dirIdMax <= max && forall i :: i in key ==> key[i] in live
    requires e.DirAdd? ==> e.parent < e.id <= max && forall k :: k in live ==> !SameName(live[k].e, e)
    ensures Joined(b, lst, who, key', live', kids, max) && key'.Keys == key.Keys + {idx}
    ensures EntriesOf(live') == EntriesOf(live)[KeyOf(e) := e] && DirsOf(b, kids) == DirsOf(a, kids)
  {
    hide IndexOk, TreeOk, Parented, Meaningful, Added, SameButPlace;
    AddedContents(live, live', key, key', idx, e);
    TreeMoves(a, b, key'.Keys, kids);
    SameDirs(a, b, kids);
    ParentedAdds(a, b, key, key', live, live', idx, e);
    MeansMore(live, live', key, key', idx, e, dirIdMax, max);
  }

  lemma DirsPut(a: seq<Node>, b: seq<Node>, kids: map<nat, seq<nat>>, d: nat, idx: nat, isDir: bool)
    requires |b| == |a| && d in kids && idx !in kids && idx < |a|
    requires forall i :: 0 <= i < |a| && i != idx ==> b[i].idOrLength == a[i].idOrLength
    ensures DirsOf(b, KidsPut(kids, d, idx, isDir)) ==
            if isDir then DirsOf(a, kids)[idx := b[idx].idOrLength] else DirsOf(a, kids)
  {
  }

  // ---- Records are measured anew and nodes are dropped ----

  lemma TreeIgnoresLength(a: seq<Node>, nodeSet: set<nat>, kids: map<nat, seq<nat>>, idx: nat, length: u16)
    requires TreeOk(a, nodeSet, kids) && idx in nodeSet && idx < |a| && !a[idx].IsDir()
    ensures TreeOk(a[idx := a[idx].(idOrLength := length)], nodeSet, kids)
    ensures DirsOf(a[idx := a[idx].(idOrLength := length)], kids) == DirsOf(a, kids)
  {
    hide Chains, Homes;
    var b := a[idx := a[idx].(idOrLength := length)];
    assert idx !in kids;
    hide TreeOk;
    TreeSame(a, b, nodeSet, kids);
  }

  lemma ParentedIgnoresLength(a: seq<Node>, key: map<nat, Key>, live: Live, kids: map<nat, seq<nat>>, idx: nat, length: u16)
    requires Parented(a, key, live) && Homes(a, key.Keys, kids) && idx < |a| && idx !in kids
    ensures Parented(a[idx := a[idx].(idOrLength := length)], key, live)
  {
    var b := a[idx := a[idx].(idOrLength := length)];
    forall i | i in key && i < |b| && key[i] in live && IsAdd(live[key[i]].e)
      ensures b[i].parentDir < |b| && b[b[i].parentDir].idOrLength == live[key[i]].e.parent
    {
      assert AtHome(a, kids, i);
    }
  }

  // A record that stands for nothing yet gets its length.
  lemma Measured(a: seq<Node>, list: seq<TinyList>, lst: seq<seq<nat>>, who: map<Key, nat>, key: map<nat, Key>, live: Live,
                 kids: map<nat, seq<nat>>, idx: nat, length: u16)
    requires ListsOk(a, list, lst) && IndexOk(a, lst, who, key, live) && Parented(a, key, live)
    requires TreeOk(a, key.Keys + {idx}, kids) && idx !in key && idx < |a| && !a[idx].IsDir()
    ensures var b := a[idx := a[idx].(idOrLength := length)];
            && ListsOk(b, list, lst) && IndexOk(b, lst, who, key, live) && Parented(b, key, live)
            && TreeOk(b, key.Keys + {idx}, kids) && DirsOf(b, kids) == DirsOf(a, kids)
  {
    TreeIgnoresLength(a, key.Keys + {idx}, kids, idx, length);
    hide ListsOk, IndexOk, Parented, Chains, AtHome;
    assert idx !in kids && Homes(a, key.Keys, kids);
    hide TreeOk;
    IndexIgnores(a, list, lst, who, key, live, idx, a[idx].(idOrLength := length));
    ParentedIgnoresLength(a, key, live, kids, idx, length);
  }

  lemma UnlinkedLinks(a: seq<Node>, b: seq<Node>, nodeSet: set<nat>, d: nat, s: seq<nat>, i: nat)
    requires ChainOk(a, nodeSet, d, s) && i < |s| && Unlinked(a, b, d, s, i) && a[d].IsDir() && |a| <= NIL
    requires forall j :: j in nodeSet ==> ROOT < j
    ensures SameButLinks(a, b, nodeSet + {ROOT}) && SameButLinks(a, b, nodeSet)
  {
    assert a[s[i]].nextSibling == NextIn(s, i) && (i + 1 < |s| ==> s[i + 1] in nodeSet);
  }

  lemma DirsDrop(a: seq<Node>, b: seq<Node>, nodeSet: set<nat>, kids: map<nat, seq<nat>>, d: nat, i: nat)
    requires d in kids && i < |kids[d]| && ChainOk(a, nodeSet, d, kids[d]) && Unlinked(a, b, d, kids[d], i) && kids[d][i] != d
    ensures DirsOf(b, kids[d := Without(kids[d], i)] - {kids[d][i]}) == DirsOf(a, kids) - {kids[d][i]}
  {
    SameParents(a, b, nodeSet, d, kids[d], i);
  }

  lemma ChainIs(a: seq<Node>, nodeSet: set<nat>, kids: map<nat, seq<nat>>, d: nat)
    requires TreeOk(a, nodeSet, kids) && d in kids
    ensures ChainOk(a, nodeSet, d, kids[d]) && forall j :: j in nodeSet ==> ROOT < j
  {
  }

  // A live node without children is taken out of the tree.
  lemma Unlinks(a: seq<Node>, b: seq<Node>, list: seq<TinyList>, lst: seq<seq<nat>>, who: map<Key, nat>,
                key: map<nat, Key>, live: Live, kids: map<nat, seq<nat>>, d: nat, i: nat)
    requires ListsOk(a, list, lst) && IndexOk(a, lst, who, key, live) && Parented(a, key, live)
    requires TreeOk(a, key.Keys, kids) && d in kids && i < |kids[d]|
    requires kids[d][i] in kids ==> kids[kids[d][i]] == []
    requires ChainOk(a, key.Keys, d, kids[d]) && Unlinked(a, b, d, kids[d], i)
    ensures var x := kids[d][i];
            var kids' := kids[d := Without(kids[d], i)] - {x};
            && ListsOk(b, list, lst) && IndexOk(b, lst, who, key, live) && Parented(b, key, live) && |b| == |a|
            && TreeOk(b, key.Keys - {x}, kids') && DirsOf(b, kids') == DirsOf(a, kids) - {x}
  {
    hide ListsOk, IndexOk, Parented, TreeOk, Unlinked, ChainOk, Domain, Homes, SameButLinks;
    DirIsNode(a, key.Keys, kids, d);
    ChainIs(a, key.Keys, kids, d);
    NotOwnKid(a, key.Keys, kids, d);
    TreeDrops(a, b, key.Keys, kids, d, i);
    UnlinkedLinks(a, b, key.Keys, d, kids[d], i);
    IndexIgnoresLinks(a, b, list, lst, who, key, live, key.Keys);
    ParentedIgnoresLinks(a, b, key, live, kids);
    DirsDrop(a, b, key.Keys, kids, d, i);
    SameParents(a, b, key.Keys, d, kids[d], i);
  }

  lemma ParentedDrops(a: seq<Node>, b: seq<Node>, key: map<nat, Key>, live: Live, idx: nat, k: Key)
    requires Parented(a, key, live) && SameButPlace(a, b)
    ensures Parented(b, key - {idx}, live - {k})
  {
  }

  // The node `idx`, no longer in the tree, has been forgotten.
  lemma Leaves(a: seq<Node>, b: seq<Node>, lst: seq<seq<nat>>, who: map<Key, nat>, key: map<nat, Key>, live: Live,
               kids: map<nat, seq<nat>>, idx: nat, k: Key, dirIdMax: nat)
    requires IndexOk(b, lst, who, key - {idx}, live - {k}) && SameButAdjacent(a, b)
    requires TreeOk(a, key.Keys - {idx}, kids) && Parented(a, key, live) && Meaningful(live, dirIdMax)
    ensures Joined(b, lst, who, key - {idx}, live - {k}, kids, dirIdMax)
    ensures EntriesOf(live - {k}) == EntriesOf(live) - {k} && DirsOf(b, kids) == DirsOf(a, kids)
  {
    hide IndexOk, TreeOk, Parented, Meaningful;
    assert SameButPlace(a, b);
    hide SameButPlace;
    assert (key - {idx}).Keys == key.Keys - {idx};
    TreeMoves(a, b, key.Keys - {idx}, kids);
    ParentedDrops(a, b, key, live, idx, k);
    MeansLess(live, {k}, dirIdMax);
    SameDirs(a, b, kids);
  }

  // A record is let go to be written again; its node stays in the tree.
  lemma LetGo(a: seq<Node>, b: seq<Node>, key: map<nat, Key>, live: Live, kids: map<nat, seq<nat>>, idx: nat, k: Key, dirIdMax: nat)
    requires TreeOk(a, key.Keys, kids) && Parented(a, key, live) && Meaningful(live, dirIdMax)
    requires SameButAdjacent(a, b) && idx in key
    ensures TreeOk(b, (key - {idx}).Keys + {idx}, kids) && Parented(b, key - {idx}, live - {k})
    ensures Meaningful(live - {k}, dirIdMax) && EntriesOf(live - {k}) == EntriesOf(live) - {k}
    ensures DirsOf(b, kids) == DirsOf(a, kids)
  {
    hide TreeOk, Parented, Meaningful;
    assert SameButPlace(a, b);
    hide SameButPlace;
    assert (key - {idx}).Keys + {idx} == key.Keys;
    TreeMoves(a, b, key.Keys, kids);
    ParentedDrops(a, b, key, live, idx, k);
    MeansLess(live, {k}, dirIdMax);
    SameDirs(a, b, kids);
  }

  // ---- The operations' view of the contents ----

  predicate HasDir(c: Contents, parent: nat, name: u16) {
    exists k :: k in c && c[k].DirAdd? && c[k].parent == parent && c[k].name == name
  }

  lemma HasDirLive(live: Live, parent: nat, name: u16)
    ensures HasDir(EntriesOf(live), parent, name) <==>
            exists k :: k in live && live[k].e.DirAdd? && live[k].e.parent == parent && live[k].e.name == name
  {
    if k :| k in live && live[k].e.DirAdd? && live[k].e.parent == parent && live[k].e.name == name {
      assert EntriesOf(live)[k].DirAdd?;
    }
  }

  // The bytes that writing a record anew gives up.
  function Replaced(c: Contents, k: Key): nat { if k in c then Total(c[k]) else 0 }

  // What is known of a child when the operations have found it.
  lemma RecordIs(nodes: seq<Node>, lst: seq<seq<nat>>, who: map<Key, nat>, key: map<nat, Key>, live: Live,
                 kids: map<nat, seq<nat>>, dirIdMax: nat, d: nat, x: nat)
    requires Joined(nodes, lst, who, key, live, kids, dirIdMax) && d in kids && x in kids[d]
    ensures |nodes| == POOL && d < POOL && nodes[d].IsDir() && ROOT < x < POOL && x in key && nodes[x].parentDir == d
    ensures var k, n := key[x], nodes[x];
            && k in live && n.Length() == Replaced(EntriesOf(live), k) && |live - {k}| == |live| - 1
            && live[k].e.parent == nodes[d].idOrLength
            && k == if n.IsDir() then Dir(n.idOrLength) else Rec(nodes[d].idOrLength, n.name)
  {
    hide TreeOk, IndexOk, Parented, Meaningful, NodeMatches;
    KidIs(nodes, lst, who, key, live, kids, dirIdMax, d, x);
    DirIsNode(nodes, key.Keys, kids, d);
    hide Joined, Domain, Homes;
    var k := key[x];
    MatchedDir(nodes[x], live[k]);
    MatchedLength(nodes[x], live[k]);
    OneLess(live, k);
  }

  lemma OneLess(live: Live, k: Key)
    requires k in live
    ensures |live - {k}| == |live| - 1
  {
    assert (live - {k}).Keys == live.Keys - {k};
    assert |live| == |live.Keys| && |live - {k}| == |(live - {k}).Keys|;
  }

  lemma ContentsCount(live: Live)
    ensures |EntriesOf(live)| == |live|
  {
    assert EntriesOf(live).Keys == live.Keys;
    assert |live| == |live.Keys| && |EntriesOf(live)| == |EntriesOf(live).Keys|;
  }

  lemma KidIsDir(nodes: seq<Node>, lst: seq<seq<nat>>, who: map<Key, nat>, key: map<nat, Key>, live: Live,
                 kids: map<nat, seq<nat>>, dirIdMax: nat, d: nat, x: nat)
    requires Joined(nodes, lst, who, key, live, kids, dirIdMax) && d in kids && x in kids[d] && x < |nodes| && nodes[x].IsDir()
    ensures x in kids
  {
    KidIs(nodes, lst, who, key, live, kids, dirIdMax, d, x);
    hide Chains, Homes, IndexOk, Parented;
  }

  lemma SiblingIs(a: seq<Node>, nodeSet: set<nat>, d: nat, s: seq<nat>, i: nat)
    requires ChainOk(a, nodeSet, d, s) && i < |s| && |a| == POOL
    ensures d < |a| && s[i] < |a| && forall j :: 0 <= j < |s| ==> s[j] < |a|
    ensures i > 0 ==> s[i - 1] != NIL
    ensures Unlinked(a, if i > 0 then a[s[i - 1] := a[s[i - 1]].(nextSibling := a[s[i]].nextSibling)]
                        else a[d := a[d].(child := a[s[i]].nextSibling)], d, s, i)
  {
  }

  // A live directory's node is a directory of the tree.
  lemma DirAt(nodes: seq<Node>, lst: seq<seq<nat>>, who: map<Key, nat>, key: map<nat, Key>, live: Live,
              kids: map<nat, seq<nat>>, dirIdMax: nat, id: u16)
    requires Joined(nodes, lst, who, key, live, kids, dirIdMax) && Dir(id) in live
    ensures Dir(id) in who
    ensures var x := who[Dir(id)]; x in kids && ROOT < x < |nodes| && nodes[x].idOrLength == id
  {
    hide Chains, Homes, Parented, NodeMatches;
    var x := who[Dir(id)];
    WhereListed(nodes, lst, who, key, live, x);
    MatchedDir(nodes[x], live[Dir(id)]);
  }
}
