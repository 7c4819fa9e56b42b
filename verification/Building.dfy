// Mount: dir_tree_build as a whole (dev/module/tinyfs/tinyfs.c:690-702, 745-751).
module Building {
  import opened Sequences
  import opened Ring
  import opened Codec
  import opened LogReplay
  import opened Nodes
  import opened Index
  import opened Collector
  import opened Tree
  import opened Subtree
  import opened Rebuild
  import opened Linking
  import opened Fixing
  import opened Table

  // ---- sibling_sort ----

  // The chain holds the nodes of the lists before `i`, and the first `j` nodes of list `i`.
  ghost predicate Gathered(ord: seq<nat>, lst: seq<seq<nat>>, i: nat, j: nat) {
    && |lst| == N && i <= N && (i < N ==> j <= |lst[i]|)
    && forall x :: x in ord <==> (exists q :: 0 <= q < i && x in lst[q]) || (i < N && x in lst[i][..j])
  }

  // The nodes that are loaded and listed, as far as they are sorted.
  ghost predicate Sorting(nodes: seq<Node>, list: seq<TinyList>, lst: seq<seq<nat>>, p: Plan, ord: seq<nat>) {
    && ListsOk(nodes, list, lst) && Raw(nodes, p) && Fits(nodes, p) && p.Sane()
    && Threads(nodes, ord) && Sorted(nodes, ord)
    && (forall q, m :: 0 <= q < N && 0 <= m < |lst[q]| ==> lst[q][m] in p.key)
    && (forall m :: 0 <= m < |ord| ==> ord[m] in p.key)
  }

  lemma ListsSame(a: seq<Node>, b: seq<Node>, list: seq<TinyList>, lst: seq<seq<nat>>)
    requires ListsOk(a, list, lst) && |a| == |b|
    requires forall i :: 0 <= i < |a| ==>
               b[i].section == a[i].section && b[i].adjacent == a[i].adjacent && b[i].Length() == a[i].Length()
    ensures ListsOk(b, list, lst)
  {
    forall p | 0 <= p < N
      ensures ListOk(b, list[p], lst[p], p)
    {
      assert ListOk(a, list[p], lst[p], p);
      SizeSame(a, b, lst[p]);
    }
  }

  lemma SiblingsMatterNot(a: seq<Node>, b: seq<Node>, list: seq<TinyList>, lst: seq<seq<nat>>, p: Plan)
    requires ListsOk(a, list, lst) && Raw(a, p) && Fits(a, p) && SameButSiblings(a, b)
    ensures ListsOk(b, list, lst) && Raw(b, p) && Fits(b, p)
  {
    hide ListsOk;
    ListsSame(a, b, list, lst);
  }

  lemma KeysApart(nodes: seq<Node>, p: Plan, ord: seq<nat>, idx: nat)
    requires Fits(nodes, p) && p.Sane() && idx in p.key && idx !in ord && forall m :: 0 <= m < |ord| ==> ord[m] in p.key
    ensures idx < |nodes| && IdsApart(nodes, ord, nodes[idx])
  {
  }

  lemma InsertedMembers(ord: seq<nat>, j: nat, idx: nat)
    requires j <= |ord|
    ensures forall x :: x in Inserted(ord, j, idx) <==> x in ord || x == idx
  {
    InsertedAt(ord, j, idx);
    var s := Inserted(ord, j, idx);
    assert s[j] == idx;
    forall x | x in ord
      ensures x in s
    {
      var m :| 0 <= m < |ord| && ord[m] == x;
      assert s[if m < j then m else m + 1] == x;
    }
  }

  // The next node of a list has not been sorted in yet.
  lemma NotYet(nodes: seq<Node>, list: seq<TinyList>, lst: seq<seq<nat>>, ord: seq<nat>, i: nat, j: nat)
    requires ListsOk(nodes, list, lst) && Gathered(ord, lst, i, j) && i < N && j < |lst[i]|
    ensures lst[i][j] !in ord && lst[i][j] < |nodes| && nodes[lst[i][j]].adjacent == NextIn(lst[i], j)
  {
    assert ListOk(nodes, list[i], lst[i], i);
    var x := lst[i][j];
    forall q | 0 <= q < i
      ensures x !in lst[q]
    {
      assert ListOk(nodes, list[q], lst[q], q);
    }
  }

  lemma GatheredOneMore(ord: seq<nat>, ord': seq<nat>, lst: seq<seq<nat>>, i: nat, j: nat)
    requires Gathered(ord, lst, i, j) && i < N && j < |lst[i]| && forall x :: x in ord' <==> x in ord || x == lst[i][j]
    ensures Gathered(ord', lst, i, j + 1)
  {
    var s := lst[i];
    assert s[..j + 1] == s[..j] + [s[j]];
  }

  lemma GatheredList(ord: seq<nat>, lst: seq<seq<nat>>, i: nat)
    requires i < N && |lst| == N && Gathered(ord, lst, i, |lst[i]|)
    ensures Gathered(ord, lst, i + 1, 0)
  {
    assert lst[i][..|lst[i]|] == lst[i];
  }

  lemma NothingGathered(nodes: seq<Node>, list: seq<TinyList>, lst: seq<seq<nat>>)
    requires ListsOk(nodes, list, lst)
    ensures Gathered([], lst, 0, 0)
  {
    assert lst[0][..0] == [];
  }

  // One turn of the inner loop of sibling_sort
  method SortNode(tab: NodeTable, idx: nat, ghost p: Plan, ghost ord: seq<nat>, ghost i: nat, ghost j: nat)
    returns (next: nat, ghost ord': seq<nat>)
    requires |tab.nodes| == POOL && Sorting(tab.nodes, tab.list, tab.lst, p, ord) && Gathered(ord, tab.lst, i, j)
    requires i < N && j < |tab.lst[i]| && idx == tab.lst[i][j]
    modifies tab`nodes
    ensures |tab.nodes| == POOL && Sorting(tab.nodes, tab.list, tab.lst, p, ord') && Gathered(ord', tab.lst, i, j + 1)
    ensures SameButSiblings(old(tab.nodes), tab.nodes) && next == NextIn(tab.lst[i], j)
  {
    hide ListsOk, Gathered, Raw, Fits, Sorted, Threads, Plan.Sane, IdsApart;
    ghost var a := tab.nodes;
    NotYet(a, tab.list, tab.lst, ord, i, j);
    KeysApart(a, p, ord, idx);
    PlanBounds(p, idx);
    ghost var at := SortedListInsert(tab, idx, ord);
    ord' := Inserted(ord, at, idx);
    InsertedMembers(ord, at, idx);
    SiblingsMatterNot(a, tab.nodes, tab.list, tab.lst, p);
    GatheredOneMore(ord, ord', tab.lst, i, j);
    next := tab.nodes[idx].adjacent;
  }

  lemma PlanBounds(p: Plan, i: nat)
    requires p.Sane() && i in p.key
    ensures ROOT < i < POOL
  {
  }

  method SiblingSort(tab: NodeTable, ghost p: Plan) returns (ghost ord: seq<nat>)
    requires |tab.nodes| == POOL && Sorting(tab.nodes, tab.list, tab.lst, p, [])
    requires forall i :: i in p.key ==> exists q :: 0 <= q < N && i in tab.lst[q]
    modifies tab`nodes
    ensures |tab.nodes| == POOL && Ready(tab.nodes, p, ord) && ListsOk(tab.nodes, tab.list, tab.lst)
    ensures Sorted(tab.nodes, ord) && SameButSiblings(old(tab.nodes), tab.nodes)
  {
    hide ListsOk, Raw, Fits, Sorted, Threads, Plan.Sane;
    ghost var a := tab.nodes;
    ord := [];
    NothingGathered(a, tab.list, tab.lst);
    var i := 0;
    while i < N
      invariant i <= N && |tab.nodes| == POOL && Sorting(tab.nodes, tab.list, tab.lst, p, ord) && Gathered(ord, tab.lst, i, 0)
      invariant SameButSiblings(a, tab.nodes)
    {
      ListHead(tab.nodes, tab.list, tab.lst, i);
      ghost var j := 0;
      var idx := tab.list[i].head;
      while idx != NIL
        invariant j <= |tab.lst[i]| && idx == (if j < |tab.lst[i]| then tab.lst[i][j] else NIL)
        invariant |tab.nodes| == POOL && Sorting(tab.nodes, tab.list, tab.lst, p, ord) && Gathered(ord, tab.lst, i, j)
        invariant SameButSiblings(a, tab.nodes)
        decreases |tab.lst[i]| - j
      {
        idx, ord := SortNode(tab, idx, p, ord, i, j);
        j := j + 1;
      }
      GatheredList(ord, tab.lst, i);
      i := i + 1;
    }
    SortedIsReady(tab.nodes, tab.list, tab.lst, p, ord);
  }

  lemma ListHead(nodes: seq<Node>, list: seq<TinyList>, lst: seq<seq<nat>>, i: nat)
    requires ListsOk(nodes, list, lst) && i < N
    ensures |lst| == |list| == N && list[i].head == FirstOf(lst[i]) && NIL !in lst[i]
  {
    assert ListOk(nodes, list[i], lst[i], i);
  }

  lemma SortedAscends(nodes: seq<Node>, p: Plan, ord: seq<nat>)
    requires Raw(nodes, p) && Sorted(nodes, ord) && forall m :: 0 <= m < |ord| ==> ord[m] in p.key && ord[m] < POOL
    ensures Ascends(Pars(p, ord))
  {
    forall i, j | 0 <= i < j < |ord|
      ensures Pars(p, ord)[i] <= Pars(p, ord)[j]
    {
      assert Precede(nodes, ord[i], ord[j]);
      assert nodes[ord[i]].parentDir == p.Par(ord[i]) && nodes[ord[j]].parentDir == p.Par(ord[j]);
    }
  }

  lemma SortedIsReady(nodes: seq<Node>, list: seq<TinyList>, lst: seq<seq<nat>>, p: Plan, ord: seq<nat>)
    requires Sorting(nodes, list, lst, p, ord) && Gathered(ord, lst, N, 0)
    requires forall i :: i in p.key ==> exists q :: 0 <= q < N && i in lst[q]
    ensures Ready(nodes, p, ord)
  {
    hide ListsOk, Raw, Fits, Sorted, Plan.Sane;
    SortedAscends(nodes, p, ord);
  }

  // ---- The tree ----

  ghost function KidsOf(p: Plan, ord: seq<nat>): map<nat, seq<nat>> {
    map x: nat | x < POOL && p.DirNode(x) :: Run(p, ord, p.Id(x))
  }

  lemma AllDirs(p: Plan, x: nat)
    requires p.Sane() && p.DirNode(x) && x < POOL
    ensures x in DirsUnder(p, 0) && p.Id(ROOT) == 0
  {
    if x != ROOT {
      HomeIs(p, x);
      AllUnderRoot(p.c, p.Id(x));
    }
  }

  lemma AllNodes(p: Plan)
    requires p.Sane()
    ensures NodesUnder(p, 0) == p.key.Keys
  {
    forall x | x in p.key
      ensures x in NodesUnder(p, 0)
    {
      HomeIs(p, x);
      AllDirs(p, p.Home(p.Par(x)));
      AllUnderRoot(p.c, p.Par(x));
    }
  }

  // Linked and cut, the chain is what node_parent_fix works on.
  lemma CutIsLinked(a: seq<Node>, b: seq<Node>, c: seq<Node>, p: Plan, ord: seq<nat>)
    requires Ready(a, p, ord) && ChildrenSet(a, b, p, ord, DirsUnder(p, 0)) && Ready(b, p, ord)
    requires CutTo(b, c, p, ord, |ord|)
    ensures Linked(c, p, ord)
  {
    hide Threads, FirstChildOf, InOrder, UnderDir;
    forall x | 0 <= x < POOL && p.DirNode(x)
      ensures c[x].child == FirstChildOf(p, ord, x)
    {
      SaneOf(a, p, ord);
      AllDirs(p, x);
    }
  }

  // A run as a family of children.
  lemma RunIsFamily(p: Plan, ord: seq<nat>, d: nat)
    requires InOrder(p, ord) && p.DirNode(d)
    ensures var s, a := Run(p, ord, p.Id(d)), Start(p, ord, p.Id(d));
            && Distinct(s) && a + |s| <= |ord|
            && forall i :: 0 <= i < |s| ==>
                 && s[i] == ord[a + i] && s[i] in p.key && ROOT < s[i] < POOL
                 && p.Home(p.Par(s[i])) == d && NextOf(p, ord, a + i) == NextIn(s, i)
  {
    hide *;
    var s := Run(p, ord, p.Id(d));
    RunAt(p, ord, p.Id(d));
    forall i | 0 <= i < |s|
      ensures var a := Start(p, ord, p.Id(d));
              && s[i] == ord[a + i] && s[i] in p.key && ROOT < s[i] < POOL
              && p.Home(p.Par(s[i])) == d && NextOf(p, ord, a + i) == NextIn(s, i)
    {
      RunMember(p, ord, d, i);
    }
  }

  lemma RunMember(p: Plan, ord: seq<nat>, d: nat, i: nat)
    requires InOrder(p, ord) && p.DirNode(d) && i < |Run(p, ord, p.Id(d))|
    ensures var s, a := Run(p, ord, p.Id(d)), Start(p, ord, p.Id(d));
            && a + i < |ord| && s[i] == ord[a + i] && s[i] in p.key && ROOT < s[i] < POOL
            && p.Home(p.Par(s[i])) == d && NextOf(p, ord, a + i) == NextIn(s, i)
  {
    hide Start, Plan.Par, Plan.Id, Plan.Home, Plan.DirNode, InOrder, Run, NextOf;
    var a := Start(p, ord, p.Id(d));
    RunAt(p, ord, p.Id(d));
    NextInFamily(p, ord, p.Id(d), a + i);
    HomeOfMember(p, ord, d, a + i);
    PlanMember(p, ord, a + i);
  }

  lemma RunAt(p: Plan, ord: seq<nat>, id: nat)
    requires InOrder(p, ord)
    ensures var s, a := Run(p, ord, id), Start(p, ord, id);
            && a + |s| == Start(p, ord, id + 1) <= |ord| && Distinct(s)
            && forall i :: 0 <= i < |s| ==> s[i] == ord[a + i]
  {
    hide Start;
    RunInside(p, ord, id);
    DistinctSlice(p, ord, Start(p, ord, id), Start(p, ord, id + 1));
  }

  lemma DistinctSlice(p: Plan, ord: seq<nat>, a: nat, b: nat)
    requires InOrder(p, ord) && a <= b <= |ord|
    ensures Distinct(ord[a..b])
  {
  }

  lemma ChainBuilt(c: seq<Node>, d: seq<Node>, p: Plan, ord: seq<nat>, x: nat)
    requires Linked(c, p, ord) && ParentsSet(c, d, p, p.key.Keys) && p.DirNode(x) && x < POOL
    ensures ChainOk(d, p.key.Keys, x, Run(p, ord, p.Id(x)))
  {
    hide Plan.Par, Plan.Id, Plan.Home, InOrder, NextOf, Run, Raw, Fits;
    RunIsFamily(p, ord, x);
    assert d[x].child == FirstOf(Run(p, ord, p.Id(x)));
    forall i | 0 <= i < |Run(p, ord, p.Id(x))|
      ensures var s := Run(p, ord, p.Id(x));
              s[i] in p.key && s[i] < |d| && d[s[i]].parentDir == x && d[s[i]].nextSibling == NextIn(s, i)
    {
      LinkedAt(c, d, p, ord, Start(p, ord, p.Id(x)) + i, p.key.Keys);
    }
  }

  lemma HomeBuilt(c: seq<Node>, d: seq<Node>, p: Plan, ord: seq<nat>, i: nat)
    requires Linked(c, p, ord) && ParentsSet(c, d, p, p.key.Keys) && i in p.key
    ensures AtHome(d, KidsOf(p, ord), i) && d[d[i].parentDir].idOrLength == p.Par(i)
  {
    LinkedPlan(c, p, ord);
    hide Plan.Par, Plan.Id, Plan.Home, Run;
    var k := PlaceOf(p, ord, i);
    PlanMember(p, ord, k);
    HomeIs(p, i);
    var h := p.Home(p.Par(i));
    HomeBounds(p, i);
    LinkedDir(c, d, p, ord, h, p.key.Keys);
    InRun(p, ord, k);
    hide Linked;
    assert h in KidsOf(p, ord) && i in KidsOf(p, ord)[h];
    if d[i].IsDir() {
      BuiltDir(c, d, p, ord, i);
    }
  }

  lemma BuiltDir(c: seq<Node>, d: seq<Node>, p: Plan, ord: seq<nat>, i: nat)
    requires Linked(c, p, ord) && ParentsSet(c, d, p, p.key.Keys) && i in p.key && i < |d|
    ensures d[i].IsDir() ==> p.DirNode(i) && d[i].idOrLength == p.Id(i)
    ensures d[i].IsDir() == p.DirNode(i)
  {
    hide InOrder;
    assert i < POOL;
  }

  lemma HomeBounds(p: Plan, i: nat)
    requires p.Sane() && i in p.key
    ensures p.Home(p.Par(i)) < POOL
  {
    HomeIs(p, i);
  }

  lemma InRun(p: Plan, ord: seq<nat>, k: nat)
    requires InOrder(p, ord) && k < |ord|
    ensures ord[k] in Run(p, ord, p.Par(ord[k]))
  {
    hide *;
    var id := p.Par(ord[k]);
    PlanMember(p, ord, k);
    RunIs(p, ord, id, k);
    RunAt(p, ord, id);
    assert Run(p, ord, id)[k - Start(p, ord, id)] == ord[k];
  }

  // With its parents set, the linked chain is the tree.
  lemma TreeBuilt(c: seq<Node>, d: seq<Node>, p: Plan, ord: seq<nat>)
    requires Linked(c, p, ord) && ParentsSet(c, d, p, p.key.Keys)
    ensures TreeOk(d, p.key.Keys, KidsOf(p, ord)) && |d| == POOL
    ensures forall i :: i in p.key ==> i < |d| && d[i].parentDir < |d| && d[d[i].parentDir].idOrLength == p.Par(i)
  {
    var kids := KidsOf(p, ord);
    DomainBuilt(c, d, p, ord);
    hide Plan.Par, Plan.Id, Plan.Home, Run, Linked, ParentsSet, AtHome, ChainOk, Domain;
    forall i | i in p.key
      ensures AtHome(d, kids, i) && d[d[i].parentDir].idOrLength == p.Par(i)
    {
      HomeBuilt(c, d, p, ord, i);
    }
    forall x | x in kids
      ensures ChainOk(d, p.key.Keys, x, kids[x])
    {
      ChainBuilt(c, d, p, ord, x);
    }
  }

  lemma DomainBuilt(c: seq<Node>, d: seq<Node>, p: Plan, ord: seq<nat>)
    requires Linked(c, p, ord) && ParentsSet(c, d, p, p.key.Keys)
    ensures Domain(d, p.key.Keys, KidsOf(p, ord))
  {
    hide Linked, ParentsSet, Run, InOrder;
    LinkedPlan(c, p, ord);
    SaneKeys(p, ord);
    BuiltRoot(c, d, p, ord);
    forall i | i in p.key
      ensures d[i].IsDir() == p.DirNode(i)
    {
      BuiltDir(c, d, p, ord, i);
    }
  }

  lemma BuiltRoot(c: seq<Node>, d: seq<Node>, p: Plan, ord: seq<nat>)
    requires Linked(c, p, ord) && ParentsSet(c, d, p, p.key.Keys)
    ensures |d| == POOL && d[ROOT].IsDir() && d[ROOT].idOrLength == 0
  {
    hide InOrder;
  }

  lemma SaneKeys(p: Plan, ord: seq<nat>)
    requires InOrder(p, ord)
    ensures forall i :: i in p.key ==> ROOT < i < POOL
  {
  }

  // ---- dir_tree_build ----

  // All but the links of the tree is the same for the nodes of `keep`.
  ghost predicate SameButTree(a: seq<Node>, b: seq<Node>, keep: set<nat>) {
    |a| == |b| && forall i :: i in keep && i < |a| ==>
      b[i] == a[i].(child := b[i].child, parentDir := b[i].parentDir, nextSibling := b[i].nextSibling) && b[i].IsDir() == a[i].IsDir()
  }

  lemma IndexKeeps(a: seq<Node>, b: seq<Node>, list: seq<TinyList>, lst: seq<seq<nat>>,
                   who: map<Key, nat>, key: map<nat, Key>, live: Live)
    requires ListsOk(a, list, lst) && IndexOk(a, lst, who, key, live) && SameButTree(a, b, key.Keys)
    ensures ListsOk(b, list, lst) && IndexOk(b, lst, who, key, live)
  {
    hide ListsOk, NodeMatches;
    ListsKeep(a, b, list, lst, key.Keys);
    forall i | i in key
      ensures NodeMatches(b[i], live[key[i]])
    {
      MatchKeeps(a[i], b[i], live[key[i]]);
    }
  }

  lemma MatchKeeps(m: Node, n: Node, it: Item)
    requires NodeMatches(m, it) && n.IsDir() == m.IsDir()
    requires n == m.(child := n.child, parentDir := n.parentDir, nextSibling := n.nextSibling)
    ensures NodeMatches(n, it)
  {
  }

  lemma ListsKeep(a: seq<Node>, b: seq<Node>, list: seq<TinyList>, lst: seq<seq<nat>>, keep: set<nat>)
    requires ListsOk(a, list, lst) && SameButTree(a, b, keep)
    requires forall q, m :: 0 <= q < N && 0 <= m < |lst[q]| ==> lst[q][m] in keep
    ensures ListsOk(b, list, lst)
  {
    forall p | 0 <= p < N
      ensures ListOk(b, list[p], lst[p], p)
    {
      assert ListOk(a, list[p], lst[p], p);
      SizeSame(a, b, lst[p]);
    }
  }

  // What the replay leaves: nodes with ids for parents and no links, beside the new root.
  ghost predicate Loaded(nodes: seq<Node>, key: map<nat, Key>, live: Live) {
    && |nodes| == POOL
    && nodes[ROOT].child == NIL && nodes[ROOT].parentDir == NIL && nodes[ROOT].nextSibling == NIL && nodes[ROOT].idOrLength == 0
    && forall i :: i in key && i < POOL && key[i] in live && IsAdd(live[key[i]].e) ==>
         && nodes[i].parentDir == live[key[i]].e.parent && (nodes[i].child == 0 || nodes[i].child == NIL)
         && nodes[i].nextSibling == NIL
  }

  ghost function PlanOf(who: map<Key, nat>, key: map<nat, Key>, live: Live): Plan {
    Plan(key, who, EntriesOf(live))
  }

  lemma PlanIsSane(nodes: seq<Node>, lst: seq<seq<nat>>, who: map<Key, nat>, key: map<nat, Key>, live: Live)
    requires IndexOk(nodes, lst, who, key, live) && Closed(EntriesOf(live))
    ensures PlanOf(who, key, live).Sane()
  {
    hide NodeMatches, Listed;
  }

  lemma PlanFits(nodes: seq<Node>, lst: seq<seq<nat>>, who: map<Key, nat>, key: map<nat, Key>, live: Live)
    requires IndexOk(nodes, lst, who, key, live) && Loaded(nodes, key, live)
    ensures Fits(nodes, PlanOf(who, key, live)) && Raw(nodes, PlanOf(who, key, live))
    ensures forall i :: i in key ==> i < POOL && (key[i].Dir? ==> nodes[i].child == NIL)
  {
    hide Listed, Paired, IndexOk;
    forall i | i in key
      ensures i < POOL && key[i] in live && IsAdd(live[key[i]].e)
      ensures nodes[i].IsDir() == key[i].Dir? && (key[i].Dir? ==> nodes[i].idOrLength == key[i].id)
    {
      WhereListed(nodes, lst, who, key, live, i);
      MatchedDir(nodes[i], live[key[i]]);
    }
  }

  lemma ReadyToSort(nodes: seq<Node>, list: seq<TinyList>, lst: seq<seq<nat>>,
                    who: map<Key, nat>, key: map<nat, Key>, live: Live)
    requires ListsOk(nodes, list, lst) && IndexOk(nodes, lst, who, key, live) && Loaded(nodes, key, live)
    requires Closed(EntriesOf(live))
    ensures Sorting(nodes, list, lst, PlanOf(who, key, live), [])
    ensures forall i :: i in key ==> exists q :: 0 <= q < N && i in lst[q]
    ensures Bare(nodes, DirsUnder(PlanOf(who, key, live), 0))
  {
    hide ListsOk, IndexOk, Fits, Raw, Plan.Sane, UnderDir, Loaded, Closed;
    PlanIsSane(nodes, lst, who, key, live);
    PlanFits(nodes, lst, who, key, live);
    LoadedRoot(nodes, key, live);
    ListedBoth(nodes, lst, who, key, live);
    assert Threads(nodes, []) && Sorted(nodes, []);
    forall x | x in DirsUnder(PlanOf(who, key, live), 0) && x < |nodes|
      ensures nodes[x].child == NIL
    {
      DirIsKeyed(PlanOf(who, key, live), x, 0);
    }
  }

  lemma DirIsKeyed(p: Plan, x: nat, id: nat)
    requires UnderDir(p, x, id)
    ensures x == ROOT || (x in p.key && p.key[x].Dir?)
  {
  }

  lemma LoadedRoot(nodes: seq<Node>, key: map<nat, Key>, live: Live)
    requires Loaded(nodes, key, live)
    ensures |nodes| == POOL && nodes[ROOT].child == NIL && nodes[ROOT].nextSibling == NIL
  {
  }

  lemma ListedBoth(nodes: seq<Node>, lst: seq<seq<nat>>, who: map<Key, nat>, key: map<nat, Key>, live: Live)
    requires IndexOk(nodes, lst, who, key, live)
    ensures |lst| == N && forall p, j :: 0 <= p < N && 0 <= j < |lst[p]| ==> lst[p][j] in key
    ensures forall i :: i in key ==> exists q :: 0 <= q < N && i in lst[q]
  {
    hide Paired, Described;
  }

  lemma BareStays(a: seq<Node>, b: seq<Node>, xs: set<nat>)
    requires Bare(a, xs) && SameButSiblings(a, b)
    ensures Bare(b, xs)
  {
  }

  // Over the three passes only links change.
  lemma OnlyLinks(a0: seq<Node>, a: seq<Node>, b: seq<Node>, c: seq<Node>, d: seq<Node>, p: Plan, ord: seq<nat>)
    requires SameButSiblings(a0, a) && ChildrenSet(a, b, p, ord, DirsUnder(p, 0)) && SameButSiblings(b, c)
    requires ParentsSet(c, d, p, p.key.Keys) && Linked(c, p, ord) && Fits(a0, p)
    ensures SameButTree(a0, d, p.key.Keys)
  {
    hide FirstChildOf, DirsUnder, Plan.Home, Plan.Par, Linked, Fits;
    forall i | i in p.key && i < |a0|
      ensures d[i].IsDir() == a0[i].IsDir()
    {
      FitsDir(a0, p, i);
      BuiltDir(c, d, p, ord, i);
    }
    forall i | i in p.key && i < |a0|
      ensures d[i] == a0[i].(child := d[i].child, parentDir := d[i].parentDir, nextSibling := d[i].nextSibling)
    {
      assert a[i] == a0[i].(nextSibling := a[i].nextSibling);
      assert b[i] == a[i].(child := b[i].child);
      assert c[i] == b[i].(nextSibling := c[i].nextSibling);
    }
  }

  lemma FitsDir(nodes: seq<Node>, p: Plan, i: nat)
    requires Fits(nodes, p) && i in p.key && i < |nodes|
    ensures i != ROOT ==> nodes[i].IsDir() == p.DirNode(i)
    ensures i == ROOT ==> nodes[i].IsDir() && p.DirNode(i)
  {
  }

  method DirTreeBuild(tab: NodeTable, ghost who: map<Key, nat>, ghost key: map<nat, Key>, ghost live: Live)
    returns (ghost kids: map<nat, seq<nat>>)
    requires |tab.nodes| == POOL && ListsOk(tab.nodes, tab.list, tab.lst) && Loaded(tab.nodes, key, live)
    requires IndexOk(tab.nodes, tab.lst, who, key, live) && Closed(EntriesOf(live))
    modifies tab`nodes
    ensures |tab.nodes| == POOL && ListsOk(tab.nodes, tab.list, tab.lst)
    ensures IndexOk(tab.nodes, tab.lst, who, key, live)
    ensures TreeOk(tab.nodes, key.Keys, kids) && Parented(tab.nodes, key, live)
  {
    hide ListsOk, IndexOk, Loaded, Sorting, Ready, Bare, DirsUnder, NodesUnder, Closed, Linked, TreeOk, Parented;
    hide ChildrenSet, ParentsSet, CutTo, SameButSiblings, SameButTree, KidsOf, Plan.Sane, Fits, Raw, Sorted;
    ghost var p, a0 := PlanOf(who, key, live), tab.nodes;
    ReadyToSort(a0, tab.list, tab.lst, who, key, live);
    PlanFits(a0, tab.lst, who, key, live);
    PlanIsSane(a0, tab.lst, who, key, live);
    ghost var ord := SiblingSort(tab, p);
    ghost var a := tab.nodes;
    BareStays(a0, a, DirsUnder(p, 0));
    RootFirst(a, p, ord);
    DirTreeLink(tab, ROOT, tab.nodes[ROOT].nextSibling, p, ord, 0);
    ghost var b := tab.nodes;
    NodeSiblingFix(tab, p, ord);
    ghost var c := tab.nodes;
    CutIsLinked(a, b, c, p, ord);
    NoParents(c, p);
    AllNodes(p);
    NodeParentFix(tab, ROOT, p, ord, c, {});
    assert {} + NodesUnder(p, 0) == p.key.Keys;
    CutKeeps(b, c, p, ord);
    OnlyLinks(a0, a, b, c, tab.nodes, p, ord);
    IndexKeeps(a0, tab.nodes, tab.list, tab.lst, who, key, live);
    TreeBuilt(c, tab.nodes, p, ord);
    kids := KidsOf(p, ord);
    ParentsBuilt(tab.nodes, who, key, live);
  }

  lemma RootFirst(nodes: seq<Node>, p: Plan, ord: seq<nat>)
    requires Ready(nodes, p, ord)
    ensures nodes[ROOT].nextSibling == FirstOf(ord) && p.DirNode(ROOT) && p.Id(ROOT) == 0
  {
  }

  lemma NoParents(nodes: seq<Node>, p: Plan)
    requires |nodes| == POOL
    ensures ParentsSet(nodes, nodes, p, {})
  {
  }

  lemma CutKeeps(a: seq<Node>, b: seq<Node>, p: Plan, ord: seq<nat>)
    requires CutTo(a, b, p, ord, |ord|)
    ensures SameButSiblings(a, b)
  {
  }

  lemma ParentsBuilt(nodes: seq<Node>, who: map<Key, nat>, key: map<nat, Key>, live: Live)
    requires forall i :: i in key ==>
               i < |nodes| && nodes[i].parentDir < |nodes| && nodes[nodes[i].parentDir].idOrLength == PlanOf(who, key, live).Par(i)
    ensures Parented(nodes, key, live)
  {
  }
}