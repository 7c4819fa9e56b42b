// Mount: cutting the chain into families and turning parent ids into links
// (dev/module/tinyfs/tinyfs.c:704-743).
module Fixing {
  import opened Codec
  import opened LogReplay
  import opened Nodes
  import opened Collector
  import opened Subtree
  import opened Rebuild
  import opened Linking
  import opened Table

  // The next node of the same family.
  ghost function NextOf(p: Plan, ord: seq<nat>, i: nat): nat
    requires i < |ord|
  {
    if i + 1 < |ord| && p.Par(ord[i + 1]) == p.Par(ord[i]) then ord[i + 1] else NIL
  }

  ghost function CutNext(p: Plan, ord: seq<nat>, n: nat, i: nat): nat
    requires i < |ord|
  {
    if i < n then NextOf(p, ord, i) else NextIn(ord, i)
  }

  // The first `n` nodes of the chain, after the root, have been cut loose from other families.
  ghost predicate CutTo(a: seq<Node>, b: seq<Node>, p: Plan, ord: seq<nat>, n: nat) {
    && SameButSiblings(a, b) && |b| == POOL
    && (forall i :: 0 <= i < |ord| ==> ord[i] < POOL && b[ord[i]].nextSibling == CutNext(p, ord, n, i))
  }

  lemma EarlierParent(p: Plan, ord: seq<nat>, i: nat)
    requires InOrder(p, ord) && i < |ord| && p.Par(ord[i]) != 0
    ensures exists j :: 0 <= j < |ord| && p.Par(ord[j]) < p.Par(ord[i])
  {
    HomeIs(p, ord[i]);
    var h := p.Home(p.Par(ord[i]));
    HomeIs(p, h);
    var j :| 0 <= j < |ord| && ord[j] == h;
  }

  // The first node of the chain is a child of the root.
  lemma ChainStartsAtRoot(p: Plan, ord: seq<nat>)
    requires InOrder(p, ord) && ord != []
    ensures p.Par(ord[0]) == 0
  {
    forall j | 0 <= j < |ord|
      ensures p.Par(ord[0]) <= p.Par(ord[j])
    {
      assert Pars(p, ord)[0] <= Pars(p, ord)[j];
    }
    hide InOrder, Plan.Par;
    if p.Par(ord[0]) != 0 {
      EarlierParent(p, ord, 0);
    }
  }

  lemma CutOne(a: seq<Node>, b: seq<Node>, p: Plan, ord: seq<nat>, n: nat)
    requires CutTo(a, b, p, ord, n) && n < |ord| && Distinct(ord)
    ensures var c := if n + 1 < |ord| && p.Par(ord[n + 1]) != p.Par(ord[n])
                     then b[ord[n] := b[ord[n]].(nextSibling := NIL)] else b;
            CutTo(a, c, p, ord, n + 1)
  {
    assert b[ord[n]].nextSibling == NextIn(ord, n);
  }

  lemma CutRoot(a: seq<Node>, p: Plan, ord: seq<nat>)
    requires Ready(a, p, ord)
    ensures CutTo(a, a[ROOT := a[ROOT].(nextSibling := NIL)], p, ord, 0)
    ensures a[ROOT].parentDir == NIL && a[ROOT].nextSibling == FirstOf(ord)
    ensures ord != [] ==> ROOT < ord[0] < POOL && a[ord[0]].parentDir == 0
  {
    hide InOrder, Fits, Distinct, NextIn, Plan.Par;
    if ord != [] {
      ChainStartsAtRoot(p, ord);
      MemberIs(a, p, ord, 0);
    }
  }

  // What the cut chain says of a member.
  lemma CutMember(a: seq<Node>, b: seq<Node>, p: Plan, ord: seq<nat>, n: nat, i: nat)
    requires Ready(a, p, ord) && CutTo(a, b, p, ord, n) && i < |ord|
    ensures Distinct(ord) && |a| == |b| == POOL && ROOT < ord[i] < POOL
    ensures b[ord[i]].parentDir == p.Par(ord[i]) && b[ord[i]].nextSibling == CutNext(p, ord, n, i)
  {
    MemberIs(a, p, ord, i);
    SaneOf(a, p, ord);
  }

  // One turn of node_sibling_fix's loop, for the node at place `i` of the chain.
  method CutNode(tab: NodeTable, idx: nat, ghost p: Plan, ghost ord: seq<nat>, ghost a: seq<Node>, ghost i: nat) returns (next: nat)
    requires Ready(a, p, ord) && CutTo(a, tab.nodes, p, ord, i) && i < |ord| && idx == ord[i]
    requires |tab.nodes| == POOL && tab.nodes[ROOT].nextSibling == NIL
    modifies tab`nodes
    ensures CutTo(a, tab.nodes, p, ord, i + 1) && next == NextIn(ord, i)
    ensures |tab.nodes| == POOL && tab.nodes[ROOT].nextSibling == NIL
  {
    hide Ready, CutTo, Plan.Par;
    ghost var b := tab.nodes;
    CutMember(a, b, p, ord, i, i);
    if i + 1 < |ord| {
      CutMember(a, b, p, ord, i, i + 1);
    }
    CutOne(a, b, p, ord, i);
    next := tab.nodes[idx].nextSibling;
    if next != NIL && tab.nodes[next].parentDir != tab.nodes[idx].parentDir {
      tab.nodes := tab.nodes[idx := tab.nodes[idx].(nextSibling := NIL)];
    }
  }

  // node_sibling_fix: the root is cut from the chain, and each node from one with another parent.
  method NodeSiblingFix(tab: NodeTable, ghost p: Plan, ghost ord: seq<nat>)
    requires Ready(tab.nodes, p, ord)
    modifies tab`nodes
    ensures CutTo(old(tab.nodes), tab.nodes, p, ord, |ord|) && |tab.nodes| == POOL && tab.nodes[ROOT].nextSibling == NIL
  {
    ghost var a := tab.nodes;
    ReadyCounts(a, p, ord);
    CutRoot(a, p, ord);
    hide Ready, CutTo;
    var idx := tab.nodes[ROOT].nextSibling;
    if idx != NIL && tab.nodes[idx].parentDir != tab.nodes[ROOT].parentDir {
      tab.nodes := tab.nodes[ROOT := tab.nodes[ROOT].(nextSibling := NIL)];
    }
    assert tab.nodes == a[ROOT := a[ROOT].(nextSibling := NIL)];
    ghost var i := 0;
    while idx != NIL
      invariant i <= |ord| && idx == (if i < |ord| then ord[i] else NIL)
      invariant CutTo(a, tab.nodes, p, ord, i) && |tab.nodes| == POOL && tab.nodes[ROOT].nextSibling == NIL
      decreases |ord| - i
    {
      idx := CutNode(tab, idx, p, ord, a, i);
      i := i + 1;
    }
  }

  // ---- node_parent_fix ----

  // The tree as it stands before parents are fixed: children linked, families cut, parents still ids.
  ghost predicate Linked(a: seq<Node>, p: Plan, ord: seq<nat>) {
    && InOrder(p, ord) && Raw(a, p) && Fits(a, p)
    && (forall x :: 0 <= x < POOL && p.DirNode(x) ==> a[x].child == FirstChildOf(p, ord, x))
    && (forall i :: 0 <= i < |ord| ==> ord[i] < POOL && a[ord[i]].nextSibling == NextOf(p, ord, i))
  }

  // The nodes of `done` have their parents; nothing else has changed.
  ghost predicate ParentsSet(a: seq<Node>, b: seq<Node>, p: Plan, done: set<nat>) {
    && |a| == |b| == POOL
    && forall x :: 0 <= x < POOL ==> b[x] == if x in done then a[x].(parentDir := p.Home(p.Par(x))) else a[x]
  }

  // Everything, at any depth, in the directory `id`.
  ghost function NodesUnder(p: Plan, id: nat): set<nat> {
    set x | x in p.key && Under(p.c, p.Par(x), id)
  }

  // The children ord[from..upTo], and everything in those that are directories.
  ghost function Family(p: Plan, ord: seq<nat>, from: nat, upTo: nat): set<nat> {
    set x | x in p.key && InFamily(p, ord, from, upTo, x)
  }

  ghost predicate InFamily(p: Plan, ord: seq<nat>, from: nat, upTo: nat, x: nat) {
    exists k :: from <= k < upTo && k < |ord| && (x == ord[k] || (p.DirNode(ord[k]) && Under(p.c, p.Par(x), p.Id(ord[k]))))
  }

  lemma FamilyOneMore(p: Plan, ord: seq<nat>, from: nat, m: nat)
    requires from <= m < |ord| && ord[m] in p.key
    ensures Family(p, ord, from, m + 1) ==
            Family(p, ord, from, m) + {ord[m]} + (if p.DirNode(ord[m]) then NodesUnder(p, p.Id(ord[m])) else {})
  {
    forall x | x in Family(p, ord, from, m + 1)
      ensures x in Family(p, ord, from, m) || x == ord[m] || (p.DirNode(ord[m]) && x in NodesUnder(p, p.Id(ord[m])))
    {
      var k :| from <= k < m + 1 && k < |ord| && (x == ord[k] || (p.DirNode(ord[k]) && Under(p.c, p.Par(x), p.Id(ord[k]))));
    }
  }

  lemma FamilyNone(p: Plan, ord: seq<nat>, from: nat)
    ensures Family(p, ord, from, from) == {}
  {
  }

  // What is known of a member of the chain, from the plan alone.
  lemma PlanMember(p: Plan, ord: seq<nat>, i: nat)
    requires InOrder(p, ord) && i < |ord|
    ensures ord[i] in p.key && ROOT < ord[i] < POOL
    ensures var x := ord[i];
            p.DirNode(x) ==> p.Par(x) < p.Id(x) < 0x1_0000 && Dir(p.Id(x)) in p.c
                             && p.c[Dir(p.Id(x))].DirAdd? && p.c[Dir(p.Id(x))].parent == p.Par(x)
    ensures p.Sane() && Closed(p.c) && Distinct(ord) && Ascends(Pars(p, ord))
  {
    HomeIs(p, ord[i]);
  }

  // A node is in the directory above its own parent's too.
  lemma NodesUnderMore(p: Plan, ord: seq<nat>, i: nat)
    requires InOrder(p, ord) && i < |ord|
    ensures ord[i] in NodesUnder(p, p.Par(ord[i]))
    ensures p.DirNode(ord[i]) ==> NodesUnder(p, p.Id(ord[i])) <= NodesUnder(p, p.Par(ord[i]))
  {
    PlanMember(p, ord, i);
    hide InOrder, Plan.Sane, Closed, Ascends, Plan.Par, Plan.Id;
    if p.DirNode(ord[i]) {
      assert Under(p.c, p.Id(ord[i]), p.Par(ord[i]));
      hide Under;
      forall x | x in NodesUnder(p, p.Id(ord[i]))
        ensures x in NodesUnder(p, p.Par(ord[i]))
      {
        UnderUnder(p.c, p.Par(x), p.Id(ord[i]), p.Par(ord[i]));
      }
    }
  }

  // A child, and what is in it, is not among the earlier children's families.
  lemma NotEarlier(p: Plan, ord: seq<nat>, id: nat, k: nat, m: nat, x: nat)
    requires InOrder(p, ord) && k < m < |ord| && p.Par(ord[k]) == p.Par(ord[m]) == id
    requires x == ord[m] || (p.DirNode(ord[m]) && Under(p.c, p.Par(x), p.Id(ord[m])))
    ensures !(x == ord[k] || (p.DirNode(ord[k]) && Under(p.c, p.Par(x), p.Id(ord[k]))))
  {
    PlanMember(p, ord, k);
    PlanMember(p, ord, m);
    hide InOrder, Closed, Ascends, Plan.Par, Plan.Id, Under, Plan.DirNode;
    if p.DirNode(ord[k]) && Under(p.c, p.Par(x), p.Id(ord[k])) {
      UnderIsGreater(p.c, p.Par(x), p.Id(ord[k]));
      if x != ord[m] {
        DirsDiffer(p, ord[k], ord[m]);
        ChildrenApart(p.c, p.Par(x), p.Id(ord[k]), p.Id(ord[m]), id);
      }
    } else if x == ord[k] && x != ord[m] {
      UnderIsGreater(p.c, p.Par(x), p.Id(ord[m]));
    }
  }

  lemma FamilyApart(p: Plan, ord: seq<nat>, id: nat, from: nat, m: nat)
    requires InOrder(p, ord) && from <= m < |ord| && forall k :: from <= k <= m ==> p.Par(ord[k]) == id
    ensures ord[m] !in Family(p, ord, from, m)
    ensures p.DirNode(ord[m]) ==> Family(p, ord, from, m) !! NodesUnder(p, p.Id(ord[m]))
    ensures p.DirNode(ord[m]) ==> ord[m] !in NodesUnder(p, p.Id(ord[m]))
  {
    hide InOrder, Plan.DirNode, Plan.Par, Plan.Id, Under;
    forall x | x in Family(p, ord, from, m)
      ensures x != ord[m] && (p.DirNode(ord[m]) ==> x !in NodesUnder(p, p.Id(ord[m])))
    {
      var k :| from <= k < m && k < |ord| && (x == ord[k] || (p.DirNode(ord[k]) && Under(p.c, p.Par(x), p.Id(ord[k]))));
      NotEarlierEither(p, ord, id, k, m, x);
    }
    OwnParent(p, ord, m);
  }

  lemma NotEarlierEither(p: Plan, ord: seq<nat>, id: nat, k: nat, m: nat, x: nat)
    requires InOrder(p, ord) && k < m < |ord| && p.Par(ord[k]) == p.Par(ord[m]) == id
    requires x == ord[k] || (p.DirNode(ord[k]) && Under(p.c, p.Par(x), p.Id(ord[k])))
    ensures !(x == ord[m] || (p.DirNode(ord[m]) && Under(p.c, p.Par(x), p.Id(ord[m]))))
  {
    hide InOrder, Plan.DirNode, Plan.Par, Plan.Id, Under;
    if x == ord[m] || (p.DirNode(ord[m]) && Under(p.c, p.Par(x), p.Id(ord[m]))) {
      NotEarlier(p, ord, id, k, m, x);
    }
  }

  lemma OwnParent(p: Plan, ord: seq<nat>, m: nat)
    requires InOrder(p, ord) && m < |ord|
    ensures p.DirNode(ord[m]) ==> ord[m] !in NodesUnder(p, p.Id(ord[m]))
  {
    PlanMember(p, ord, m);
    hide InOrder, Plan.DirNode, Plan.Par, Plan.Id, Under, Plan.Sane, Closed;
    if p.DirNode(ord[m]) && Under(p.c, p.Par(ord[m]), p.Id(ord[m])) {
      UnderIsGreater(p.c, p.Par(ord[m]), p.Id(ord[m]));
    }
  }

  lemma FamilyHas(p: Plan, ord: seq<nat>, from: nat, upTo: nat, x: nat, k: nat)
    requires from <= k < upTo && k < |ord| && x in p.key
    requires x == ord[k] || (p.DirNode(ord[k]) && Under(p.c, p.Par(x), p.Id(ord[k])))
    ensures x in Family(p, ord, from, upTo)
  {
  }

  lemma PlaceOf(p: Plan, ord: seq<nat>, x: nat) returns (k: nat)
    requires InOrder(p, ord) && x in p.key
    ensures k < |ord| && ord[k] == x && Closed(p.c) && Ascends(Pars(p, ord))
  {
    k :| 0 <= k < |ord| && ord[k] == x;
  }

  lemma UnderFamily(p: Plan, ord: seq<nat>, id: nat, x: nat)
    requires InOrder(p, ord) && x in NodesUnder(p, id)
    ensures x in Family(p, ord, Start(p, ord, id), Start(p, ord, id + 1))
  {
    hide InOrder, Plan.DirNode, Plan.Par, Plan.Id, Under, Start, Family, Closed, Ascends;
    var k := PlaceOf(p, ord, x);
    if p.Par(x) != id {
      var c := UnderChild(p.c, p.Par(x), id);
      k := NodeOfDir(p, ord, c);
    }
    RunIs(p, ord, id, k);
    FamilyHas(p, ord, Start(p, ord, id), Start(p, ord, id + 1), x, k);
  }

  // The children with their families: all that is in the directory.
  lemma FamilyAll(p: Plan, ord: seq<nat>, id: nat)
    requires InOrder(p, ord)
    ensures Family(p, ord, Start(p, ord, id), Start(p, ord, id + 1)) == NodesUnder(p, id)
  {
    hide InOrder, Plan.DirNode, Plan.Par, Plan.Id, Under, Start;
    forall x | x in NodesUnder(p, id)
      ensures x in Family(p, ord, Start(p, ord, id), Start(p, ord, id + 1))
    {
      UnderFamily(p, ord, id, x);
    }
    forall x | x in Family(p, ord, Start(p, ord, id), Start(p, ord, id + 1))
      ensures x in NodesUnder(p, id)
    {
      var k :| Start(p, ord, id) <= k < Start(p, ord, id + 1) && k < |ord|
               && (x == ord[k] || (p.DirNode(ord[k]) && Under(p.c, p.Par(x), p.Id(ord[k]))));
      InRunOf(p, ord, id, k);
      NodesUnderMore(p, ord, k);
    }
  }

  lemma InRunOf(p: Plan, ord: seq<nat>, id: nat, k: nat)
    requires InOrder(p, ord) && Start(p, ord, id) <= k < Start(p, ord, id + 1) && k < |ord|
    ensures p.Par(ord[k]) == id
  {
    hide Start;
    RunIs(p, ord, id, k);
  }

  lemma FixedTwice(a: seq<Node>, b: seq<Node>, p: Plan, done: set<nat>, x: nat)
    requires ParentsSet(a, b, p, done) && x < POOL
    ensures ParentsSet(a, b[x := b[x].(parentDir := p.Home(p.Par(x)))], p, done + {x})
  {
  }

  lemma LinkedAt(a: seq<Node>, b: seq<Node>, p: Plan, ord: seq<nat>, m: nat, done: set<nat>)
    requires Linked(a, p, ord) && ParentsSet(a, b, p, done) && m < |ord|
    ensures var x := ord[m];
            && x in p.key && ROOT < x < POOL && |b| == POOL && b[x].IsDir() == p.DirNode(x)
            && (x !in done ==> b[x].parentDir == p.Par(x)) && b[x].nextSibling == NextOf(p, ord, m)
  {
  }

  lemma LinkedDir(a: seq<Node>, b: seq<Node>, p: Plan, ord: seq<nat>, d: nat, done: set<nat>)
    requires Linked(a, p, ord) && ParentsSet(a, b, p, done) && p.DirNode(d) && d < POOL
    ensures |b| == POOL && b[d].idOrLength == p.Id(d) && b[d].child == FirstChildOf(p, ord, d)
  {
  }

  lemma LinkedPlan(a: seq<Node>, p: Plan, ord: seq<nat>)
    requires Linked(a, p, ord)
    ensures InOrder(p, ord)
  {
  }

  // In a run, the next of the family is the next of the run.
  lemma NextInFamily(p: Plan, ord: seq<nat>, id: nat, m: nat)
    requires InOrder(p, ord) && Start(p, ord, id) <= m < Start(p, ord, id + 1)
    ensures m < |ord| && p.Par(ord[m]) == id
    ensures NextOf(p, ord, m) == if m + 1 < Start(p, ord, id + 1) then ord[m + 1] else NIL
  {
    hide Start, Plan.Par;
    InRunOf(p, ord, id, m);
    RunIs(p, ord, id, m);
    if m + 1 < |ord| {
      RunIs(p, ord, id, m + 1);
    }
  }

  lemma HomeOfMember(p: Plan, ord: seq<nat>, d: nat, m: nat)
    requires InOrder(p, ord) && m < |ord| && p.DirNode(d) && p.Par(ord[m]) == p.Id(d)
    ensures p.Home(p.Par(ord[m])) == d && (p.DirNode(ord[m]) ==> p.Id(d) < p.Id(ord[m]) < 0x1_0000)
  {
    hide Plan.Par, Plan.Id, Plan.Home;
    PlanMember(p, ord, m);
    HomeIs(p, ord[m]);
    DirOf(p, p.Home(p.Par(ord[m])), d);
  }

  // What the tree before the fix says of the child at place `m` of a run.
  lemma LinkedMember(a: seq<Node>, b: seq<Node>, p: Plan, ord: seq<nat>, d: nat, m: nat, done: set<nat>)
    requires Linked(a, p, ord) && ParentsSet(a, b, p, done) && p.DirNode(d) && d < POOL
    requires Start(p, ord, p.Id(d)) <= m < Start(p, ord, p.Id(d) + 1)
    ensures var x := ord[m];
            && x in p.key && ROOT < x < POOL && |b| == POOL && b[x].IsDir() == p.DirNode(x) && b[d].idOrLength == p.Id(d)
            && (x !in done ==> b[x].parentDir == p.Id(d))
            && b[x].nextSibling == (if m + 1 < Start(p, ord, p.Id(d) + 1) then ord[m + 1] else NIL)
            && p.Home(p.Par(x)) == d && p.Par(x) == p.Id(d) && (p.DirNode(x) ==> p.Id(d) < p.Id(x) < 0x1_0000)
  {
    hide *;
    LinkedPlan(a, p, ord);
    NextInFamily(p, ord, p.Id(d), m);
    LinkedAt(a, b, p, ord, m, done);
    LinkedDir(a, b, p, ord, d, done);
    HomeOfMember(p, ord, d, m);
  }

  // One turn of node_parent_fix's loop: the child at place `m`, and all that is in it.
  method FixChild(tab: NodeTable, parent: nat, x: nat, ghost p: Plan, ghost ord: seq<nat>, ghost a: seq<Node>,
                  ghost done: set<nat>, ghost m: nat) returns (next: nat)
    requires Linked(a, p, ord) && p.DirNode(parent) && parent < POOL
    requires Start(p, ord, p.Id(parent)) <= m < Start(p, ord, p.Id(parent) + 1) && x == ord[m]
    requires done !! NodesUnder(p, p.Id(parent))
    requires ParentsSet(a, tab.nodes, p, done + Family(p, ord, Start(p, ord, p.Id(parent)), m))
    modifies tab`nodes
    ensures ParentsSet(a, tab.nodes, p, done + Family(p, ord, Start(p, ord, p.Id(parent)), m + 1))
    ensures next == if m + 1 < Start(p, ord, p.Id(parent) + 1) then ord[m + 1] else NIL
    decreases 0x1_0000 - p.Id(parent), 0
  {
    hide Linked, Start, ParentsSet, Family, NodesUnder, Plan.Par, Plan.Id, Plan.DirNode, Plan.Home;
    ghost var id, from := p.Id(parent), Start(p, ord, p.Id(parent));
    ghost var d0 := done + Family(p, ord, from, m);
    LinkedMember(a, tab.nodes, p, ord, parent, m, d0);
    FixChildApart(a, p, ord, id, m, done);
    ghost var d1 := d0;
    if tab.nodes[x].IsDir() {
      d1 := d0 + NodesUnder(p, p.Id(x));
      NodeParentFix(tab, x, p, ord, a, d0);
    }
    LinkedMember(a, tab.nodes, p, ord, parent, m, d1);
    FixedTwice(a, tab.nodes, p, d1, x);
    assert d1 + {x} == done + Family(p, ord, from, m + 1);
    tab.nodes := tab.nodes[x := tab.nodes[x].(parentDir := parent)];
    next := tab.nodes[x].nextSibling;
  }

  lemma FixChildApart(a: seq<Node>, p: Plan, ord: seq<nat>, id: nat, m: nat, done: set<nat>)
    requires Linked(a, p, ord) && Start(p, ord, id) <= m < Start(p, ord, id + 1) && done !! NodesUnder(p, id)
    ensures var d0, x := done + Family(p, ord, Start(p, ord, id), m), ord[m];
            && x !in d0
            && (p.DirNode(x) ==> d0 !! NodesUnder(p, p.Id(x)) && x !in NodesUnder(p, p.Id(x)))
            && done + Family(p, ord, Start(p, ord, id), m + 1)
               == d0 + {x} + (if p.DirNode(x) then NodesUnder(p, p.Id(x)) else {})
  {
    hide Linked, Start, Family, NodesUnder, Plan.Par, Plan.Id, Plan.DirNode, InOrder;
    LinkedPlan(a, p, ord);
    forall k | Start(p, ord, id) <= k <= m
      ensures p.Par(ord[k]) == id
    {
      InRunOf(p, ord, id, k);
    }
    PlanMember(p, ord, m);
    FamilyApart(p, ord, id, Start(p, ord, id), m);
    FamilyOneMore(p, ord, Start(p, ord, id), m);
    NodesUnderMore(p, ord, m);
  }

  // node_parent_fix: everything in the directory gets the link to its parent.
  method NodeParentFix(tab: NodeTable, parent: nat, ghost p: Plan, ghost ord: seq<nat>, ghost a: seq<Node>, ghost done: set<nat>)
    requires Linked(a, p, ord) && p.DirNode(parent) && parent < POOL
    requires done !! NodesUnder(p, p.Id(parent)) && ParentsSet(a, tab.nodes, p, done)
    modifies tab`nodes
    ensures ParentsSet(a, tab.nodes, p, done + NodesUnder(p, p.Id(parent)))
    decreases 0x1_0000 - p.Id(parent), 1
  {
    hide *;
    ghost var from, upTo := Start(p, ord, p.Id(parent)), Start(p, ord, p.Id(parent) + 1);
    FixStarts(a, tab.nodes, p, ord, parent, done);
    var ptr := tab.nodes[parent].child;
    ghost var m := from;
    FixGoesOn(a, tab.nodes, p, ord, parent, m, done);
    while ptr != NIL && tab.nodes[ptr].parentDir == tab.nodes[parent].idOrLength
      invariant from <= m <= upTo <= |ord| && ptr == (if m < upTo then ord[m] else NIL)
      invariant ParentsSet(a, tab.nodes, p, done + Family(p, ord, from, m))
      invariant |tab.nodes| == POOL
      invariant m < upTo ==> ptr < POOL && ptr != NIL && tab.nodes[ptr].parentDir == tab.nodes[parent].idOrLength
      decreases upTo - m
    {
      ptr := FixChild(tab, parent, ptr, p, ord, a, done, m);
      m := m + 1;
      FixGoesOn(a, tab.nodes, p, ord, parent, m, done);
    }
    LinkedPlan(a, p, ord);
    FamilyAll(p, ord, p.Id(parent));
  }

  lemma FixStarts(a: seq<Node>, b: seq<Node>, p: Plan, ord: seq<nat>, d: nat, done: set<nat>)
    requires Linked(a, p, ord) && p.DirNode(d) && d < POOL && ParentsSet(a, b, p, done)
    ensures var from, upTo := Start(p, ord, p.Id(d)), Start(p, ord, p.Id(d) + 1);
            && from <= upTo <= |ord| && |b| == POOL && b[d].child == (if from < upTo then ord[from] else NIL)
            && ParentsSet(a, b, p, done + Family(p, ord, from, from))
  {
    hide *;
    LinkedPlan(a, p, ord);
    FamilyNone(p, ord, Start(p, ord, p.Id(d)));
    assert done + {} == done;
    RunInside(p, ord, p.Id(d));
    RunHead(p, ord, d);
    LinkedDir(a, b, p, ord, d, done);
  }

  lemma RunInside(p: Plan, ord: seq<nat>, id: nat)
    requires InOrder(p, ord)
    ensures Start(p, ord, id) <= Start(p, ord, id + 1) <= |ord|
  {
    hide Start;
    RunBounds(p, ord, id, id + 1);
  }

  // The next child's parent is still the id it was loaded with, so the loop goes on to the end of the run.
  lemma FixGoesOn(a: seq<Node>, b: seq<Node>, p: Plan, ord: seq<nat>, d: nat, m: nat, done: set<nat>)
    requires Linked(a, p, ord) && p.DirNode(d) && d < POOL && done !! NodesUnder(p, p.Id(d))
    requires Start(p, ord, p.Id(d)) <= m
    requires ParentsSet(a, b, p, done + Family(p, ord, Start(p, ord, p.Id(d)), m))
    ensures |b| == POOL && (m < Start(p, ord, p.Id(d) + 1) ==> ord[m] < POOL && ord[m] != NIL && b[ord[m]].parentDir == b[d].idOrLength)
  {
    hide Linked, Start, ParentsSet, Family, NodesUnder, Plan.Par, Plan.Id, Plan.DirNode, Plan.Home;
    LinkedDir(a, b, p, ord, d, done + Family(p, ord, Start(p, ord, p.Id(d)), m));
    if m < Start(p, ord, p.Id(d) + 1) {
      LinkedMember(a, b, p, ord, d, m, done + Family(p, ord, Start(p, ord, p.Id(d)), m));
      FixChildApart(a, p, ord, p.Id(d), m, done);
    }
  }
}