// Mount: linking the sorted chain into a tree (dev/module/tinyfs/tinyfs.c:653-729).
module Linking {
  import opened Codec
  import opened LogReplay
  import opened Nodes
  import opened Collector
  import opened Tree
  import opened Subtree
  import opened Rebuild
  import opened Table

  // ---- Runs of siblings in the sorted chain ----

  // How many numbers at the front of `s` are less than `id`.
  function Lower(s: seq<nat>, id: nat): (n: nat)
    ensures n <= |s|
  {
    if s == [] || s[0] >= id then 0 else 1 + Lower(s[1..], id)
  }

  ghost predicate Ascends(s: seq<nat>) { forall i, j :: 0 <= i < j < |s| ==> s[i] <= s[j] }

  lemma {:induction false} LowerIs(s: seq<nat>, id: nat, i: nat)
    requires Ascends(s) && i < |s|
    ensures i < Lower(s, id) <==> s[i] < id
    decreases |s|
  {
    if i > 0 && s[0] < id {
      LowerIs(s[1..], id, i - 1);
    }
  }

  lemma LowerGrows(s: seq<nat>, id: nat, id': nat)
    requires Ascends(s) && id <= id'
    ensures Lower(s, id) <= Lower(s, id')
  {
    var n := Lower(s, id);
    if n > 0 {
      LowerIs(s, id, n - 1);
      LowerIs(s, id', n - 1);
    }
  }

  // Parent ids along the chain.
  ghost function Pars(p: Plan, ord: seq<nat>): (s: seq<nat>)
    ensures |s| == |ord|
  {
    seq(|ord|, i requires 0 <= i < |ord| => p.Par(ord[i]))
  }

  ghost function Start(p: Plan, ord: seq<nat>, id: nat): (n: nat)
    ensures n <= |ord|
  {
    Lower(Pars(p, ord), id)
  }

  // The children of the directory `id`.
  ghost function Run(p: Plan, ord: seq<nat>, id: nat): seq<nat> {
    var a, b := Start(p, ord, id), Start(p, ord, id + 1);
    if a <= b then ord[a..b] else []
  }

  // The chain holds every node once, sorted by parent.
  ghost predicate InOrder(p: Plan, ord: seq<nat>) {
    && p.Sane() && Distinct(ord) && Ascends(Pars(p, ord))
    && (forall i :: 0 <= i < |ord| ==> ord[i] in p.key)
    && (forall i :: i in p.key ==> i in ord)
  }

  // Where the children of `id` are in the chain.
  lemma RunIs(p: Plan, ord: seq<nat>, id: nat, i: nat)
    requires Ascends(Pars(p, ord)) && i < |ord|
    ensures Start(p, ord, id) <= Start(p, ord, id + 1) <= |ord|
    ensures i < Start(p, ord, id) <==> p.Par(ord[i]) < id
    ensures i < Start(p, ord, id + 1) <==> p.Par(ord[i]) <= id
  {
    LowerIs(Pars(p, ord), id, i);
    LowerIs(Pars(p, ord), id + 1, i);
    LowerGrows(Pars(p, ord), id, id + 1);
  }

  lemma RunBounds(p: Plan, ord: seq<nat>, id: nat, id': nat)
    requires Ascends(Pars(p, ord)) && id <= id'
    ensures Start(p, ord, id) <= Start(p, ord, id') <= |ord|
  {
    LowerGrows(Pars(p, ord), id, id');
  }

  // ---- The climb from a directory to the root ----

  ghost predicate UnderDir(p: Plan, x: nat, id: nat) {
    p.DirNode(x) && Under(p.c, p.Id(x), id)
  }

  lemma {:induction false} UnderIsGreater(c: Contents, q: nat, id: nat)
    requires Under(c, q, id)
    ensures q >= id
    decreases q
  {
    if q != id {
      UnderIsGreater(c, c[Dir(q)].parent, id);
    }
  }

  // Nothing lies under two different children of one directory.
  lemma {:induction false} ChildrenApart(c: Contents, q: nat, a: nat, b: nat, id: nat)
    requires Under(c, q, a) && Under(c, q, b) && a != b
    requires 0 < a < 0x1_0000 && 0 < b < 0x1_0000 && Dir(a) in c && Dir(b) in c && c[Dir(a)].DirAdd? && c[Dir(b)].DirAdd?
    requires c[Dir(a)].parent == id < a && c[Dir(b)].parent == id < b
    ensures false
    decreases q
  {
    if q == a {
      UnderIsGreater(c, id, b);
    } else if q == b {
      UnderIsGreater(c, id, a);
    } else {
      ChildrenApart(c, c[Dir(q)].parent, a, b, id);
    }
  }

  // What lies under a directory, but is not the directory, lies under one of its children.
  lemma {:induction false} UnderChild(c: Contents, q: nat, id: nat) returns (a: nat)
    requires Closed(c) && Under(c, q, id) && q != id
    ensures 0 < a < 0x1_0000 && Dir(a) in c && c[Dir(a)].DirAdd? && c[Dir(a)].parent == id < a && Under(c, q, a)
    decreases q
  {
    if c[Dir(q)].parent == id {
      a := q;
    } else {
      a := UnderChild(c, c[Dir(q)].parent, id);
    }
  }

  lemma {:induction false} AllUnderRoot(c: Contents, q: nat)
    requires Closed(c) && (q == 0 || (q < 0x1_0000 && Dir(q) in c))
    ensures Under(c, q, 0)
    decreases q
  {
    if q != 0 {
      AllUnderRoot(c, c[Dir(q)].parent);
    }
  }

  // ---- dir_tree_link ----

  // The loaded nodes, sorted and threaded.
  ghost predicate Ready(nodes: seq<Node>, p: Plan, ord: seq<nat>) {
    Threads(nodes, ord) && InOrder(p, ord) && Raw(nodes, p) && Fits(nodes, p)
  }

  // The child link that a directory is to have.
  ghost function FirstChildOf(p: Plan, ord: seq<nat>, x: nat): nat { FirstOf(Run(p, ord, p.Id(x))) }

  // The directories of `set` have their child links; nothing else has changed.
  ghost predicate ChildrenSet(a: seq<Node>, b: seq<Node>, p: Plan, ord: seq<nat>, done: set<nat>) {
    && |a| == |b| == POOL
    && forall x :: 0 <= x < POOL ==> b[x] == if x in done then a[x].(child := FirstChildOf(p, ord, x)) else a[x]
  }

  // The directories at or below the directory `id`.
  ghost function DirsUnder(p: Plan, id: nat): set<nat> {
    set x: nat | x < POOL && UnderDir(p, x, id)
  }

  ghost predicate Bare(nodes: seq<Node>, xs: set<nat>) {
    forall x :: x in xs && x < |nodes| ==> nodes[x].child == NIL
  }

  lemma RunStarts(p: Plan, ord: seq<nat>, x: nat)
    requires InOrder(p, ord)
    ensures FirstChildOf(p, ord, x) > 0
  {
    var r := Run(p, ord, p.Id(x));
    assert r != [] ==> r[0] in ord;
  }

  lemma ReadyStays(a: seq<Node>, b: seq<Node>, p: Plan, ord: seq<nat>, done: set<nat>)
    requires Ready(a, p, ord) && ChildrenSet(a, b, p, ord, done) && forall x :: x in done ==> p.DirNode(x)
    ensures Ready(b, p, ord)
  {
    hide InOrder, FirstChildOf;
    forall x | 0 <= x < POOL
      ensures b[x] == a[x].(child := b[x].child) && (p.DirNode(x) ==> b[x].child != 0) && (x !in done ==> b[x] == a[x])
    {
      RunStarts(p, ord, x);
    }
    hide ChildrenSet;
    assert Threads(b, ord) && Raw(b, p);
    hide Threads, Raw;
  }

  // What is known of a member of the chain.
  lemma MemberIs(nodes: seq<Node>, p: Plan, ord: seq<nat>, i: nat)
    requires Ready(nodes, p, ord) && i < |ord|
    ensures var x := ord[i];
            && x in p.key && ROOT < x < POOL && nodes[x].nextSibling == NextIn(ord, i) && nodes[x].parentDir == p.Par(x)
            && nodes[x].IsDir() == p.key[x].Dir? == p.DirNode(x)
            && (p.DirNode(x) ==> nodes[x].idOrLength == p.Id(x) && p.Par(x) < p.Id(x) < 0x1_0000
                                 && Dir(p.Id(x)) in p.c && p.c[Dir(p.Id(x))].DirAdd? && p.c[Dir(p.Id(x))].parent == p.Par(x))
  {
    HomeIs(p, ord[i]);
  }

  // A directory is known by its id.
  lemma DirOf(p: Plan, x: nat, y: nat)
    requires p.Sane() && p.DirNode(x) && p.DirNode(y) && p.Id(x) == p.Id(y)
    ensures x == y
  {
    if x in p.key {
      HomeIs(p, x);
    }
    if y in p.key {
      HomeIs(p, y);
    }
  }

  lemma DirsDiffer(p: Plan, x: nat, y: nat)
    requires p.Sane() && p.DirNode(x) && p.DirNode(y) && x != y
    ensures p.Id(x) != p.Id(y)
  {
    if p.Id(x) == p.Id(y) {
      DirOf(p, x, y);
    }
  }

  lemma NodeOfDir(p: Plan, ord: seq<nat>, id: nat) returns (i: nat)
    requires InOrder(p, ord) && 0 < id < 0x1_0000 && Dir(id) in p.c && p.c[Dir(id)].DirAdd?
    ensures i < |ord| && p.DirNode(ord[i]) && p.Id(ord[i]) == id && p.Par(ord[i]) == p.c[Dir(id)].parent
  {
    var x := p.who[Dir(id)];
    i :| 0 <= i < |ord| && ord[i] == x;
  }

  // The directories below the children ord[from..upTo].
  ghost function Reached(p: Plan, ord: seq<nat>, from: nat, upTo: nat): set<nat> {
    set x: nat | x < POOL && ReachedBy(p, ord, from, upTo, x)
  }

  ghost predicate ReachedBy(p: Plan, ord: seq<nat>, from: nat, upTo: nat, x: nat) {
    exists k :: from <= k < upTo && k < |ord| && p.DirNode(ord[k]) && UnderDir(p, x, p.Id(ord[k]))
  }

  lemma ReachedOneMore(nodes: seq<Node>, p: Plan, ord: seq<nat>, from: nat, m: nat)
    requires Ready(nodes, p, ord) && from <= m < |ord|
    ensures Reached(p, ord, from, m + 1) ==
            Reached(p, ord, from, m) + (if p.DirNode(ord[m]) then DirsUnder(p, p.Id(ord[m])) else {})
  {
    hide Ready, UnderDir, Plan.DirNode, Plan.Id;
  }

  lemma SaneOf(nodes: seq<Node>, p: Plan, ord: seq<nat>)
    requires Ready(nodes, p, ord)
    ensures p.Sane() && Closed(p.c) && Distinct(ord) && Ascends(Pars(p, ord)) && InOrder(p, ord)
  {
  }

  lemma PairApart(nodes: seq<Node>, p: Plan, ord: seq<nat>, id: nat, k: nat, m: nat, x: nat)
    requires Ready(nodes, p, ord) && k < m < |ord| && p.DirNode(ord[k]) && p.DirNode(ord[m])
    requires p.Par(ord[k]) == id && p.Par(ord[m]) == id
    ensures !(UnderDir(p, x, p.Id(ord[k])) && UnderDir(p, x, p.Id(ord[m])))
  {
    hide Ready, Plan.Sane, Closed, Under, InOrder;
    SaneOf(nodes, p, ord);
    MemberIs(nodes, p, ord, k);
    MemberIs(nodes, p, ord, m);
    DirsDiffer(p, ord[k], ord[m]);
    if UnderDir(p, x, p.Id(ord[k])) && UnderDir(p, x, p.Id(ord[m])) {
      ChildrenApart(p.c, p.Id(x), p.Id(ord[k]), p.Id(ord[m]), id);
    }
  }

  // Below different children of one directory there are different directories.
  lemma ReachedApart(nodes: seq<Node>, p: Plan, ord: seq<nat>, id: nat, from: nat, m: nat)
    requires Ready(nodes, p, ord) && from <= m < |ord| && p.DirNode(ord[m])
    requires forall k :: from <= k <= m ==> p.Par(ord[k]) == id
    ensures Reached(p, ord, from, m) !! DirsUnder(p, p.Id(ord[m]))
  {
    hide Ready, UnderDir, Plan.DirNode;
    forall x | x in Reached(p, ord, from, m)
      ensures x !in DirsUnder(p, p.Id(ord[m]))
    {
      var k :| from <= k < m && p.DirNode(ord[k]) && UnderDir(p, x, p.Id(ord[k]));
      PairApart(nodes, p, ord, id, k, m, x);
    }
  }

  lemma ReachedByThis(p: Plan, ord: seq<nat>, from: nat, upTo: nat, x: nat, k: nat)
    requires from <= k < upTo && k < |ord| && p.DirNode(ord[k]) && x < POOL
    requires p.DirNode(x) && Under(p.c, p.Id(x), p.Id(ord[k]))
    ensures x in Reached(p, ord, from, upTo)
  {
  }

  lemma ReachedFrom(nodes: seq<Node>, p: Plan, ord: seq<nat>, d: nat, x: nat)
    requires Ready(nodes, p, ord) && p.DirNode(d) && p.DirNode(x) && Under(p.c, p.Id(x), p.Id(d)) && x != d && x < POOL
    ensures x in Reached(p, ord, Start(p, ord, p.Id(d)), Start(p, ord, p.Id(d) + 1))
  {
    hide *;
    SaneOf(nodes, p, ord);
    var id := p.Id(d);
    DirsDiffer(p, x, d);
    var c := UnderChild(p.c, p.Id(x), id);
    var k := NodeOfDir(p, ord, c);
    RunIs(p, ord, id, k);
    ReachedByThis(p, ord, Start(p, ord, id), Start(p, ord, id + 1), x, k);
  }

  lemma ReachedUnder(nodes: seq<Node>, p: Plan, ord: seq<nat>, d: nat, x: nat)
    requires Ready(nodes, p, ord) && p.DirNode(d)
    requires ReachedBy(p, ord, Start(p, ord, p.Id(d)), Start(p, ord, p.Id(d) + 1), x)
    ensures UnderDir(p, x, p.Id(d)) && x != d
  {
    var id, a, b := p.Id(d), Start(p, ord, p.Id(d)), Start(p, ord, p.Id(d) + 1);
    var k :| a <= k < b && k < |ord| && p.DirNode(ord[k]) && UnderDir(p, x, p.Id(ord[k]));
    assert p.DirNode(x) && Under(p.c, p.Id(x), p.Id(ord[k]));
    UnderFromRun(nodes, p, ord, d, k, x);
  }

  lemma UnderFromRun(nodes: seq<Node>, p: Plan, ord: seq<nat>, d: nat, k: nat, x: nat)
    requires Ready(nodes, p, ord) && p.DirNode(d) && k < |ord| && p.DirNode(ord[k])
    requires Start(p, ord, p.Id(d)) <= k < Start(p, ord, p.Id(d) + 1)
    requires Under(p.c, p.Id(x), p.Id(ord[k]))
    ensures Under(p.c, p.Id(x), p.Id(d)) && x != d
  {
    hide *;
    SaneOf(nodes, p, ord);
    MemberIs(nodes, p, ord, k);
    RunIs(p, ord, p.Id(d), k);
    UnderParent(p.c, p.Id(ord[k]), p.Id(d));
    UnderUnder(p.c, p.Id(x), p.Id(ord[k]), p.Id(d));
    UnderIsGreater(p.c, p.Id(x), p.Id(ord[k]));
  }

  lemma UnderParent(c: Contents, q: nat, id: nat)
    requires 0 < q < 0x1_0000 && Dir(q) in c && c[Dir(q)].DirAdd? && c[Dir(q)].parent == id < q
    ensures Under(c, q, id)
  {
    assert Under(c, id, id);
  }

  // Below the children, and the directory itself: all that is below the directory.
  lemma ReachedAll(nodes: seq<Node>, p: Plan, ord: seq<nat>, d: nat)
    requires Ready(nodes, p, ord) && p.DirNode(d) && d < POOL
    ensures var id := p.Id(d);
            Reached(p, ord, Start(p, ord, id), Start(p, ord, id + 1)) + {d} == DirsUnder(p, id)
    ensures d !in Reached(p, ord, Start(p, ord, p.Id(d)), Start(p, ord, p.Id(d) + 1))
  {
    hide Ready, ReachedBy, Start;
    var id := p.Id(d);
    forall x | x in DirsUnder(p, id) && x != d
      ensures x in Reached(p, ord, Start(p, ord, id), Start(p, ord, id + 1))
    {
      ReachedFrom(nodes, p, ord, d, x);
    }
    forall x | x in Reached(p, ord, Start(p, ord, id), Start(p, ord, id + 1))
      ensures UnderDir(p, x, id) && x != d
    {
      ReachedUnder(nodes, p, ord, d, x);
    }
  }

  lemma SetTwice(a: seq<Node>, b: seq<Node>, c: seq<Node>, p: Plan, ord: seq<nat>, s: set<nat>, t: set<nat>)
    requires ChildrenSet(a, b, p, ord, s) && ChildrenSet(b, c, p, ord, t)
    ensures ChildrenSet(a, c, p, ord, s + t)
  {
  }

  lemma StillBare(a: seq<Node>, b: seq<Node>, p: Plan, ord: seq<nat>, done: set<nat>, xs: set<nat>, ys: set<nat>)
    requires ChildrenSet(a, b, p, ord, done) && Bare(a, xs) && ys <= xs && done !! ys
    ensures Bare(b, ys)
  {
  }

  // The run of a directory's children, searched from a place before it.
  lemma RunFound(nodes: seq<Node>, p: Plan, ord: seq<nat>, d: nat, s: nat, i: nat)
    requires Ready(nodes, p, ord) && p.DirNode(d) && s <= Start(p, ord, p.Id(d)) && s <= i <= |ord|
    requires forall m :: s <= m < i ==> p.Par(ord[m]) != p.Id(d)
    requires i < |ord| ==> p.Par(ord[i]) == p.Id(d)
    ensures if i < |ord| then i == Start(p, ord, p.Id(d)) < Start(p, ord, p.Id(d) + 1) <= |ord|
            else Start(p, ord, p.Id(d)) == Start(p, ord, p.Id(d) + 1)
  {
    hide *;
    SaneOf(nodes, p, ord);
    var id := p.Id(d);
    RunBounds(p, ord, id, id + 1);
    var t := Start(p, ord, id);
    if t < |ord| {
      RunIs(p, ord, id, t);
    }
    if i < |ord| {
      RunIs(p, ord, id, i);
    }
  }

  lemma RunEnds(nodes: seq<Node>, p: Plan, ord: seq<nat>, d: nat, j: nat)
    requires Ready(nodes, p, ord) && p.DirNode(d) && Start(p, ord, p.Id(d)) < j <= |ord|
    requires p.Par(ord[j - 1]) == p.Id(d) && (j < |ord| ==> p.Par(ord[j]) != p.Id(d))
    ensures j == Start(p, ord, p.Id(d) + 1)
  {
    hide *;
    SaneOf(nodes, p, ord);
    var id := p.Id(d);
    RunIs(p, ord, id, j - 1);
    if j < |ord| {
      RunIs(p, ord, id, j);
    }
  }

  lemma RunHead(p: Plan, ord: seq<nat>, d: nat)
    requires Start(p, ord, p.Id(d)) <= Start(p, ord, p.Id(d) + 1)
    ensures FirstChildOf(p, ord, d) ==
            var a := Start(p, ord, p.Id(d)); if a < Start(p, ord, p.Id(d) + 1) then ord[a] else NIL
  {
  }

  // The first child of `parent` at or after `start`, which is place `s` of the chain.
  method FindFirstChild(tab: NodeTable, parent: nat, start: nat, ghost p: Plan, ghost ord: seq<nat>, ghost s: nat)
    returns (first: nat, ghost a: nat)
    requires Ready(tab.nodes, p, ord) && p.DirNode(parent) && parent < POOL && s <= Start(p, ord, p.Id(parent))
    requires start == if s < |ord| then ord[s] else NIL
    ensures a <= |ord| && first == (if a < |ord| then ord[a] else NIL)
    ensures if a < |ord| then a == Start(p, ord, p.Id(parent)) < Start(p, ord, p.Id(parent) + 1) <= |ord|
            else Start(p, ord, p.Id(parent)) == Start(p, ord, p.Id(parent) + 1)
    ensures first == FirstChildOf(p, ord, parent)
  {
    hide Ready, Start, FirstChildOf, Plan.Par, Plan.Id, Plan.DirNode;
    DirIdIs(tab.nodes, p, ord, parent);
    first, a := start, s;
    while first != NIL && tab.nodes[first].parentDir != tab.nodes[parent].idOrLength
      invariant s <= a <= |ord| && first == (if a < |ord| then ord[a] else NIL) && (first != NIL ==> first < POOL)
      invariant forall m :: s <= m < a ==> p.Par(ord[m]) != p.Id(parent)
      decreases |ord| - a
    {
      MemberIs(tab.nodes, p, ord, a);
      first := tab.nodes[first].nextSibling;
      a := a + 1;
      if a < |ord| {
        MemberIs(tab.nodes, p, ord, a);
      }
    }
    if a < |ord| {
      MemberIs(tab.nodes, p, ord, a);
    }
    RunFound(tab.nodes, p, ord, parent, s, a);
    RunHead(p, ord, parent);
  }

  lemma DirIdIs(nodes: seq<Node>, p: Plan, ord: seq<nat>, d: nat)
    requires Ready(nodes, p, ord) && p.DirNode(d) && d < POOL
    ensures |nodes| == POOL && nodes[d].idOrLength == p.Id(d) && nodes[d].IsDir() && p.Id(d) < 0x1_0000
    ensures forall i :: 0 <= i < |ord| ==> ROOT < ord[i] < POOL
  {
  }

  // The end of the run of children.
  method FindRunEnd(tab: NodeTable, parent: nat, first: nat, ghost p: Plan, ghost ord: seq<nat>, ghost a: nat)
    returns (w: nat, ghost b: nat)
    requires Ready(tab.nodes, p, ord) && p.DirNode(parent) && parent < POOL
    requires a == Start(p, ord, p.Id(parent)) < Start(p, ord, p.Id(parent) + 1) <= |ord| && first == ord[a]
    ensures b == Start(p, ord, p.Id(parent) + 1) && w == if b < |ord| then ord[b] else NIL
    ensures w == var end := Start(p, ord, p.Id(parent) + 1); if end < |ord| then ord[end] else NIL
  {
    hide Ready, Start, Plan.Par, Plan.Id, Plan.DirNode;
    DirIdIs(tab.nodes, p, ord, parent);
    RunMember(tab.nodes, p, ord, parent, a);
    MemberIs(tab.nodes, p, ord, a);
    w, b := first, a;
    while w != NIL && tab.nodes[w].parentDir == tab.nodes[parent].idOrLength
      invariant a <= b <= |ord| && w == (if b < |ord| then ord[b] else NIL) && (w != NIL ==> w < POOL)
      invariant b < |ord| ==> tab.nodes[w].parentDir == p.Par(ord[b])
      invariant b == a || p.Par(ord[b - 1]) == p.Id(parent)
      decreases |ord| - b
    {
      MemberIs(tab.nodes, p, ord, b);
      w := tab.nodes[w].nextSibling;
      b := b + 1;
      if b < |ord| {
        MemberIs(tab.nodes, p, ord, b);
      }
    }
    RunEnds(tab.nodes, p, ord, parent, b);
  }

  lemma RunMember(nodes: seq<Node>, p: Plan, ord: seq<nat>, d: nat, i: nat)
    requires Ready(nodes, p, ord) && Start(p, ord, p.Id(d)) <= i < Start(p, ord, p.Id(d) + 1)
    ensures p.Par(ord[i]) == p.Id(d)
  {
    hide *;
    SaneOf(nodes, p, ord);
    RunIs(p, ord, p.Id(d), i);
  }

  // Directories beyond the last run have no children.
  lemma NoneBeyond(nodes: seq<Node>, p: Plan, ord: seq<nat>, id: nat, x: nat)
    requires Ready(nodes, p, ord) && Start(p, ord, id + 1) == |ord| && id < p.Id(x)
    ensures FirstChildOf(p, ord, x) == NIL
  {
    hide Ready, Start;
    SaneOf(nodes, p, ord);
    RunBounds(p, ord, id + 1, p.Id(x));
    RunBounds(p, ord, id + 1, p.Id(x) + 1);
  }

  lemma NothingToSet(nodes: seq<Node>, p: Plan, ord: seq<nat>, xs: set<nat>)
    requires |nodes| == POOL && Bare(nodes, xs) && forall x :: x in xs && x < POOL ==> FirstChildOf(p, ord, x) == NIL
    ensures ChildrenSet(nodes, nodes, p, ord, xs)
  {
  }

  // When nothing follows the run, no directory below has children.
  lemma LastRun(nodes: seq<Node>, p: Plan, ord: seq<nat>, d: nat, xs: set<nat>)
    requires Ready(nodes, p, ord) && p.DirNode(d) && d < POOL && Start(p, ord, p.Id(d) + 1) == |ord|
    requires xs <= DirsUnder(p, p.Id(d)) && d !in xs && Bare(nodes, xs)
    ensures ChildrenSet(nodes, nodes, p, ord, xs)
  {
    hide *;
    forall x | x in xs
      ensures FirstChildOf(p, ord, x) == NIL
    {
      LastRunOf(nodes, p, ord, d, x);
    }
    ReadyCounts(nodes, p, ord);
    NothingToSet(nodes, p, ord, xs);
  }

  lemma ReadyCounts(nodes: seq<Node>, p: Plan, ord: seq<nat>)
    requires Ready(nodes, p, ord)
    ensures |nodes| == POOL
  {
  }

  lemma LastRunOf(nodes: seq<Node>, p: Plan, ord: seq<nat>, d: nat, x: nat)
    requires Ready(nodes, p, ord) && p.DirNode(d) && Start(p, ord, p.Id(d) + 1) == |ord|
    requires x in DirsUnder(p, p.Id(d)) && x != d
    ensures FirstChildOf(p, ord, x) == NIL
  {
    hide *;
    UnderDirIs(p, x, p.Id(d));
    SaneOf(nodes, p, ord);
    UnderIsGreater(p.c, p.Id(x), p.Id(d));
    DirsDiffer(p, x, d);
    NoneBeyond(nodes, p, ord, p.Id(d), x);
  }

  lemma UnderDirIs(p: Plan, x: nat, id: nat)
    requires x in DirsUnder(p, id)
    ensures p.DirNode(x) && Under(p.c, p.Id(x), id)
  {
  }

  lemma OneSet(a: seq<Node>, p: Plan, ord: seq<nat>, d: nat)
    requires |a| == POOL && d < POOL
    ensures ChildrenSet(a, a[d := a[d].(child := FirstChildOf(p, ord, d))], p, ord, {d})
  {
  }

  // dir_tree_link; `start` is place `s` of the chain.
  method DirTreeLink(tab: NodeTable, parent: nat, start: nat, ghost p: Plan, ghost ord: seq<nat>, ghost s: nat)
    requires Ready(tab.nodes, p, ord) && p.DirNode(parent) && parent < POOL && s <= Start(p, ord, p.Id(parent))
    requires start == if s < |ord| then ord[s] else NIL
    requires Bare(tab.nodes, DirsUnder(p, p.Id(parent)))
    modifies tab`nodes
    ensures Ready(tab.nodes, p, ord) && ChildrenSet(old(tab.nodes), tab.nodes, p, ord, DirsUnder(p, p.Id(parent)))
    decreases 0x1_0000 - p.Id(parent), 2
  {
    hide Ready, Start, Plan.Par, Plan.Id, Plan.DirNode, FirstChildOf, Bare, UnderDir, Reached, ChildrenSet, DirsUnder;
    ghost var nodes, id := tab.nodes, p.Id(parent);
    var first, a := FindFirstChild(tab, parent, start, p, ord, s);
    DirIdIs(nodes, p, ord, parent);
    RunHead(p, ord, parent);
    ReachedAll(nodes, p, ord, parent);
    OneSet(nodes, p, ord, parent);
    if first == NIL {
      ReachedNone(p, ord, Start(p, ord, id), Start(p, ord, id + 1));
      assert {} + {parent} == DirsUnder(p, id) == {parent};
      BareIs(nodes, DirsUnder(p, id), parent);
      return;
    }
    tab.nodes := tab.nodes[parent := tab.nodes[parent].(child := first)];
    ghost var mid := tab.nodes;
    ReadyStays(nodes, mid, p, ord, {parent});
    var w, b := FindRunEnd(tab, parent, first, p, ord, a);
    ghost var xs := Reached(p, ord, a, b);
    StillBare(nodes, mid, p, ord, {parent}, DirsUnder(p, id), xs);
    if w == NIL {
      LastRun(mid, p, ord, parent, xs);
    } else {
      LinkChildren(tab, parent, first, w, p, ord, a, b);
    }
    SetTwice(nodes, mid, tab.nodes, p, ord, {parent}, xs);
    assert {parent} + xs == DirsUnder(p, id);
  }

  lemma ReachedNone(p: Plan, ord: seq<nat>, a: nat, b: nat)
    requires a >= b
    ensures Reached(p, ord, a, b) == {}
  {
  }

  lemma BareIs(nodes: seq<Node>, xs: set<nat>, x: nat)
    requires Bare(nodes, xs) && x in xs && x < |nodes|
    ensures nodes[x := nodes[x].(child := NIL)] == nodes
  {
  }

  // The directories among the children are linked in turn.
  method LinkChildren(tab: NodeTable, parent: nat, first: nat, w: nat, ghost p: Plan, ghost ord: seq<nat>, ghost a: nat, ghost b: nat)
    requires Ready(tab.nodes, p, ord) && p.DirNode(parent) && parent < POOL
    requires a == Start(p, ord, p.Id(parent)) < b == Start(p, ord, p.Id(parent) + 1) < |ord|
    requires first == ord[a] && w == ord[b] && Bare(tab.nodes, Reached(p, ord, a, b))
    modifies tab`nodes
    ensures Ready(tab.nodes, p, ord) && ChildrenSet(old(tab.nodes), tab.nodes, p, ord, Reached(p, ord, a, b))
    decreases 0x1_0000 - p.Id(parent), 1
  {
    hide Ready, Start, Plan.Par, Plan.Id, Plan.DirNode, Bare, Reached, ChildrenSet;
    ghost var nodes, m := tab.nodes, a;
    OncePlaced(nodes, p, ord, b);
    ReachedNone(p, ord, a, a);
    NoneSet(nodes, p, ord);
    var q := first;
    while q != w
      invariant a <= m <= b && q == ord[m] && Ready(tab.nodes, p, ord)
      invariant ChildrenSet(nodes, tab.nodes, p, ord, Reached(p, ord, a, m))
      decreases b - m
    {
      q := LinkChild(tab, parent, q, w, p, ord, a, b, nodes, m);
      m := m + 1;
    }
  }

  lemma OncePlaced(nodes: seq<Node>, p: Plan, ord: seq<nat>, b: nat)
    requires Ready(nodes, p, ord) && b < |ord|
    ensures forall m :: 0 <= m < b ==> ord[m] != ord[b]
  {
  }

  lemma NoneSet(nodes: seq<Node>, p: Plan, ord: seq<nat>)
    requires Ready(nodes, p, ord)
    ensures ChildrenSet(nodes, nodes, p, ord, {})
  {
  }

  // One turn of the loop: the child at place `m`.
  method LinkChild(tab: NodeTable, parent: nat, q: nat, w: nat, ghost p: Plan, ghost ord: seq<nat>, ghost a: nat, ghost b: nat,
                   ghost nodes: seq<Node>, ghost m: nat) returns (next: nat)
    requires Ready(tab.nodes, p, ord) && p.DirNode(parent) && parent < POOL
    requires a == Start(p, ord, p.Id(parent)) <= m < b == Start(p, ord, p.Id(parent) + 1) < |ord|
    requires q == ord[m] && w == ord[b] && Bare(nodes, Reached(p, ord, a, b))
    requires ChildrenSet(nodes, tab.nodes, p, ord, Reached(p, ord, a, m))
    modifies tab`nodes
    ensures Ready(tab.nodes, p, ord) && next == ord[m + 1]
    ensures ChildrenSet(nodes, tab.nodes, p, ord, Reached(p, ord, a, m + 1))
    decreases 0x1_0000 - p.Id(parent), 0
  {
    hide Ready, Start, Plan.Par, Plan.Id, Plan.DirNode, Bare, Reached, ChildrenSet, DirsUnder;
    ghost var before := tab.nodes;
    ReadyCounts(before, p, ord);
    RunMember(before, p, ord, parent, m);
    MemberIs(before, p, ord, m);
    ReachedOneMore(before, p, ord, a, m);
    if tab.nodes[q].IsDir() {
      ReachedWithin(before, p, ord, parent, m, nodes);
      DirTreeLink(tab, q, w, p, ord, b);
      SetTwice(nodes, before, tab.nodes, p, ord, Reached(p, ord, a, m), DirsUnder(p, p.Id(q)));
    } else {
      assert Reached(p, ord, a, m) + {} == Reached(p, ord, a, m);
    }
    ReadyCounts(tab.nodes, p, ord);
    MemberIs(tab.nodes, p, ord, m);
    next := tab.nodes[q].nextSibling;
  }

  // What is below the child at place `m` has not been touched yet, and its own run comes later.
  lemma ReachedWithin(before: seq<Node>, p: Plan, ord: seq<nat>, parent: nat, m: nat, nodes: seq<Node>)
    requires Ready(before, p, ord) && m < |ord| && p.DirNode(ord[m])
    requires Start(p, ord, p.Id(parent)) <= m < Start(p, ord, p.Id(parent) + 1)
    requires var a, b := Start(p, ord, p.Id(parent)), Start(p, ord, p.Id(parent) + 1);
             Bare(nodes, Reached(p, ord, a, b)) && ChildrenSet(nodes, before, p, ord, Reached(p, ord, a, m))
    ensures Bare(before, DirsUnder(p, p.Id(ord[m])))
    ensures p.Id(parent) < p.Id(ord[m]) < 0x1_0000
    ensures Start(p, ord, p.Id(parent) + 1) <= Start(p, ord, p.Id(ord[m]))
  {
    hide *;
    var id, a, b := p.Id(parent), Start(p, ord, p.Id(parent)), Start(p, ord, p.Id(parent) + 1);
    forall k | a <= k <= m
      ensures p.Par(ord[k]) == id
    {
      RunMember(before, p, ord, parent, k);
    }
    MemberIs(before, p, ord, m);
    ReachedApart(before, p, ord, id, a, m);
    ReachedGrows(p, ord, a, m, b);
    ReachedOneMore(before, p, ord, a, m);
    SaneOf(before, p, ord);
    RunBounds(p, ord, id + 1, p.Id(ord[m]));
    StillBare(nodes, before, p, ord, Reached(p, ord, a, m), Reached(p, ord, a, b), DirsUnder(p, p.Id(ord[m])));
  }

  lemma ReachedGrows(p: Plan, ord: seq<nat>, a: nat, m: nat, b: nat)
    requires m < b
    ensures Reached(p, ord, a, m + 1) <= Reached(p, ord, a, b)
  {
  }
}