// Nodes in memory and the per-section lists that thread them (dev/module/tinyfs/tinyfs.c:101-125, 326-421).
module Nodes {
  import opened Nor
  import opened Ring
  import opened Sequences

  // Node indices; the pool holds TINYFS_NODE_MAX + 1 nodes.
  type PoolSize = n: int | 2 <= n < 0xffff witness 2
  const POOL: PoolSize
  const NIL: nat := 0xffff  // INVALID_NODE_IDX
  const ROOT: nat := 0

  // tinyfs_node_t; `child` is 0 for a record, and `idOrLength` is the union u.
  datatype Node = Node(section: nat, offset: nat, child: nat, adjacent: nat, parentDir: nat, nextSibling: nat,
                       name: u16, idOrLength: u16)
  {
    predicate IsDir() { child != 0 }

    // node_total_length
    function Length(): nat { if IsDir() then 9 else 9 + idOrLength + 2 }
  }

  datatype TinyList = TinyList(head: nat, tail: nat, size: nat)

  function FirstOf(s: seq<nat>): nat { if s == [] then NIL else s[0] }

  function LastOf(s: seq<nat>): nat { if s == [] then NIL else s[|s| - 1] }

  function NextIn(s: seq<nat>, i: nat): nat { if i + 1 < |s| then s[i + 1] else NIL }

  ghost predicate Distinct(s: seq<nat>) { forall i, j :: 0 <= i < j < |s| ==> s[i] != s[j] }

  function LengthAt(nodes: seq<Node>, x: nat): nat { if x < |nodes| then nodes[x].Length() else 0 }

  function SizeOf(nodes: seq<Node>, s: seq<nat>): nat {
    if s == [] then 0 else LengthAt(nodes, s[0]) + SizeOf(nodes, s[1..])
  }

  // `l` threads exactly the nodes `s`, all of section `slot`, in that order.
  ghost predicate ListOk(nodes: seq<Node>, l: TinyList, s: seq<nat>, slot: nat) {
    && l.head == FirstOf(s) && l.tail == LastOf(s)
    && Distinct(s)
    && (forall i :: 0 <= i < |s| ==> s[i] < |nodes| <= NIL)
    && (forall i :: 0 <= i < |s| ==> nodes[s[i]].section == slot && nodes[s[i]].adjacent == NextIn(s, i))
    && l.size == SizeOf(nodes, s)
  }

  ghost predicate ListsOk(nodes: seq<Node>, list: seq<TinyList>, lst: seq<seq<nat>>) {
    && |list| == |lst| == N
    && forall p :: 0 <= p < N ==> ListOk(nodes, list[p], lst[p], p)
  }

  // Everything but the threading is the same.
  ghost predicate SameButAdjacent(a: seq<Node>, b: seq<Node>) {
    |a| == |b| && forall i :: 0 <= i < |a| ==> b[i] == a[i].(adjacent := b[i].adjacent)
  }

  lemma {:induction false} SizeSame(a: seq<Node>, b: seq<Node>, s: seq<nat>)
    requires forall i :: 0 <= i < |s| ==> LengthAt(a, s[i]) == LengthAt(b, s[i])
    ensures SizeOf(a, s) == SizeOf(b, s)
  {
    if s != [] {
      SizeSame(a, b, s[1..]);
    }
  }

  lemma {:induction false} SizeSum(nodes: seq<Node>, s: seq<nat>, t: seq<nat>)
    ensures SizeOf(nodes, s + t) == SizeOf(nodes, s) + SizeOf(nodes, t)
  {
    if s == [] {
      assert s + t == t;
    } else {
      assert (s + t)[1..] == s[1..] + t;
      SizeSum(nodes, s[1..], t);
    }
  }

  lemma SizeWithout(nodes: seq<Node>, s: seq<nat>, i: nat)
    requires i < |s|
    ensures SizeOf(nodes, Without(s, i)) + LengthAt(nodes, s[i]) == SizeOf(nodes, s)
  {
    assert s == s[..i] + ([s[i]] + s[i + 1..]);
    assert SizeOf(nodes, [s[i]]) == LengthAt(nodes, s[i]);
    SizeSum(nodes, [s[i]], s[i + 1..]);
    SizeSum(nodes, s[..i], [s[i]] + s[i + 1..]);
    SizeSum(nodes, s[..i], s[i + 1..]);
  }

  // A change to the threading of nodes of one section leaves the other sections' lists alone.
  lemma OtherListsOk(a: seq<Node>, b: seq<Node>, list: seq<TinyList>, lst: seq<seq<nat>>, p: nat,
                     l: TinyList, s: seq<nat>)
    requires p < N && ListsOk(a, list, lst) && SameButAdjacent(a, b) && ListOk(b, l, s, p)
    requires forall i :: 0 <= i < |a| && a[i].section != p ==> b[i] == a[i]
    ensures ListsOk(b, list[p := l], lst[p := s])
  {
    forall q | 0 <= q < N && q != p
      ensures ListOk(b, list[q], lst[q], q)
    {
      assert ListOk(a, list[q], lst[q], q);
      SizeSame(a, b, lst[q]);
    }
  }

  ghost function Pushed(a: seq<Node>, l: TinyList, s: seq<nat>, x: nat): seq<Node>
    requires x < |a| && (s != [] ==> l.tail < |a|)
  {
    var b := a[x := a[x].(adjacent := NIL)];
    if s == [] then b else b[l.tail := a[l.tail].(adjacent := x)]
  }

  lemma PushedAt(a: seq<Node>, l: TinyList, s: seq<nat>, p: nat, x: nat, i: nat)
    requires ListOk(a, l, s, p) && x < |a| && x !in s && a[x].section == p && |a| <= NIL && i <= |s|
    ensures s != [] ==> l.tail < |a|
    ensures var b, t := Pushed(a, l, s, x), s + [x];
            |b| == |a| && t[i] < |a| && b[t[i]].section == p && b[t[i]].adjacent == NextIn(t, i)
  {
    hide SizeOf;
    if i < |s| {
      assert a[s[i]].adjacent == NextIn(s, i);
    }
  }

  lemma PushedSize(a: seq<Node>, b: seq<Node>, s: seq<nat>, x: nat)
    requires SameButAdjacent(a, b) && x < |a|
    ensures SizeOf(b, s + [x]) == SizeOf(a, s) + a[x].Length()
  {
    SizeSame(a, b, s);
    SizeSum(b, s, [x]);
  }

  lemma PushedOk(a: seq<Node>, l: TinyList, s: seq<nat>, p: nat, x: nat)
    requires ListOk(a, l, s, p) && x < |a| && x !in s && a[x].section == p && |a| <= NIL
    ensures s != [] ==> l.tail < |a|
    ensures ListOk(Pushed(a, l, s, x), TinyList(FirstOf(s + [x]), x, l.size + a[x].Length()), s + [x], p)
  {
    hide SizeOf, NextIn;
    PushedAt(a, l, s, p, x, |s|);
    var b, t := Pushed(a, l, s, x), s + [x];
    PushedSize(a, b, s, x);
    hide Pushed;
    forall i | 0 <= i < |t|
      ensures t[i] < |b| && b[t[i]].section == p && b[t[i]].adjacent == NextIn(t, i)
    {
      PushedAt(a, l, s, p, x, i);
    }
  }

  lemma RemovedSize(a: seq<Node>, b: seq<Node>, l: TinyList, s: seq<nat>, p: nat, i: nat)
    requires ListOk(a, l, s, p) && i < |s| && SameButAdjacent(a, b)
    ensures l.size - a[s[i]].Length() == SizeOf(b, Without(s, i))
  {
    SizeWithout(a, s, i);
    SizeSame(a, b, Without(s, i));
  }

  lemma RemovedIs(s: seq<nat>, i: nat, j: nat)
    requires i < |s| && j < |Without(s, i)|
    ensures |Without(s, i)| == |s| - 1 && Without(s, i)[j] == s[if j < i then j else j + 1]
    ensures NextIn(Without(s, i), j) ==
            if j + 1 == i then NextIn(s, i) else if j < i then NextIn(s, j) else NextIn(s, j + 1)
  {
  }

  lemma RemovedAt(a: seq<Node>, b: seq<Node>, l: TinyList, s: seq<nat>, p: nat, i: nat, j: nat)
    requires ListOk(a, l, s, p) && i < |s| && j < |Without(s, i)|
    requires b == if i == 0 then a else a[s[i - 1] := a[s[i - 1]].(adjacent := a[s[i]].adjacent)]
    ensures var t := Without(s, i);
            t[j] < |b| && b[t[j]].section == p && b[t[j]].adjacent == NextIn(t, j)
  {
    hide SizeOf, FirstOf, LastOf;
    var k := if j < i then j else j + 1;
    RemovedIs(s, i, j);
    assert a[s[k]].adjacent == NextIn(s, k) && a[s[i]].adjacent == NextIn(s, i);
    assert s[k] != s[i] && (i > 0 && k != i - 1 ==> s[k] != s[i - 1]);
    hide Without, NextIn, Distinct;
  }

  lemma RemovedOk(a: seq<Node>, b: seq<Node>, l: TinyList, s: seq<nat>, p: nat, i: nat, size: nat)
    requires ListOk(a, l, s, p) && i < |s| && size == SizeOf(b, Without(s, i))
    requires b == if i == 0 then a else a[s[i - 1] := a[s[i - 1]].(adjacent := a[s[i]].adjacent)]
    ensures var t := Without(s, i);
            ListOk(b, TinyList(FirstOf(t), LastOf(t), size), t, p)
  {
    hide SizeOf, NextIn;
    var t := Without(s, i);
    assert Distinct(t);
    hide Without;
    forall j | 0 <= j < |t|
      ensures t[j] < |b| && b[t[j]].section == p && b[t[j]].adjacent == NextIn(t, j)
    {
      RemovedAt(a, b, l, s, p, i, j);
    }
  }
}
