// The bytes of the live nodes, counted by the section lists, are those of the contents
// (dev/module/tinyfs/tinyfs.c:106-109, 326-345, 964-998).
module Weights {
  import opened Ring
  import opened Codec
  import opened LogReplay
  import opened Nodes
  import opened Index
  import opened Collector
  import opened Tree

  ghost function Pick(c: Contents): (k: Key)
    requires c != map[]
    ensures k in c
  {
    var k :| k in c;
    k
  }

  // The length of all the contents' nodes together.
  ghost function Weight(c: Contents): nat
    decreases c.Keys
  {
    if c == map[] then 0 else var k := Pick(c); Total(c[k]) + Weight(c - {k})
  }

  // It does not matter in which order they are counted.
  lemma {:induction false} WeightWithout(c: Contents, k: Key)
    requires k in c
    ensures Weight(c) == Total(c[k]) + Weight(c - {k})
    decreases c.Keys
  {
    hide Total, Pick;
    var j := Pick(c);
    if j != k {
      WeightWithout(c - {j}, k);
      WeightWithout(c - {k}, j);
      assert c - {j} - {k} == c - {k} - {j};
    }
  }

  // Storing an entry adds its bytes and takes away those of the entry it replaces.
  lemma WeightWith(c: Contents, k: Key, e: Entry)
    ensures Weight(map[]) == 0
    ensures Weight(c[k := e]) == Weight(c) + Total(e) - (if k in c then Total(c[k]) else 0)
  {
    hide Total;
    WeightWithout(c[k := e], k);
    if k in c {
      WeightWithout(c, k);
      assert c[k := e] - {k} == c - {k};
    } else {
      assert c[k := e] - {k} == c;
    }
  }

  // The nodes `s` stand for the contents, one each.
  ghost predicate StandFor(nodes: seq<Node>, s: seq<nat>, key: map<nat, Key>, c: Contents) {
    && (forall i :: 0 <= i < |s| ==> s[i] in key && key[s[i]] in c && LengthAt(nodes, s[i]) == Total(c[key[s[i]]]))
    && (forall i, j :: 0 <= i < j < |s| ==> s[i] in key && s[j] in key && key[s[i]] != key[s[j]])
    && (forall k :: k in c ==> exists i :: 0 <= i < |s| && s[i] in key && key[s[i]] == k)
  }

  lemma StandForRest(nodes: seq<Node>, s: seq<nat>, key: map<nat, Key>, c: Contents)
    requires s != [] && StandFor(nodes, s, key, c)
    ensures s[0] in key && key[s[0]] in c && StandFor(nodes, s[1..], key, c - {key[s[0]]})
  {
    hide LengthAt, Total;
    var t, k := s[1..], key[s[0]];
    forall j | j in c - {k}
      ensures exists i :: 0 <= i < |t| && t[i] in key && key[t[i]] == j
    {
      var i :| 0 <= i < |s| && s[i] in key && key[s[i]] == j;
      assert t[i - 1] == s[i];
    }
  }

  lemma {:induction false} SizeIsWeight(nodes: seq<Node>, s: seq<nat>, key: map<nat, Key>, c: Contents)
    requires StandFor(nodes, s, key, c)
    ensures SizeOf(nodes, s) == Weight(c)
    decreases |s|
  {
    hide LengthAt, Total;
    if s == [] {
      assert c == map[];
    } else {
      StandForRest(nodes, s, key, c);
      SizeIsWeight(nodes, s[1..], key, c - {key[s[0]]});
      WeightWithout(c, key[s[0]]);
    }
  }

  // All lists, one after the other
  function Chain(lst: seq<seq<nat>>): seq<nat> {
    if lst == [] then [] else lst[0] + Chain(lst[1..])
  }

  ghost predicate Apart(lst: seq<seq<nat>>) {
    && (forall p :: 0 <= p < |lst| ==> Distinct(lst[p]))
    && (forall p, q, x :: 0 <= p < q < |lst| && x in lst[p] ==> x !in lst[q])
  }

  lemma {:induction false} InChain(lst: seq<seq<nat>>, x: nat)
    ensures x in Chain(lst) <==> exists p :: 0 <= p < |lst| && x in lst[p]
    decreases |lst|
  {
    if lst != [] {
      InChain(lst[1..], x);
      if p :| 0 <= p < |lst| && x in lst[p] {
        assert p > 0 ==> lst[1..][p - 1] == lst[p];
      }
      if p :| 0 <= p < |lst[1..]| && x in lst[1..][p] {
        assert lst[p + 1] == lst[1..][p];
      }
    }
  }

  lemma {:induction false} ChainDistinct(lst: seq<seq<nat>>)
    requires Apart(lst)
    ensures Distinct(Chain(lst))
    decreases |lst|
  {
    if lst != [] {
      var rest := lst[1..];
      assert Apart(rest) by {
        assert forall p :: 0 <= p < |rest| ==> rest[p] == lst[p + 1];
      }
      ChainDistinct(rest);
      forall x | x in lst[0]
        ensures x !in Chain(rest)
      {
        InChain(rest, x);
        assert forall p :: 0 <= p < |rest| ==> rest[p] == lst[p + 1];
      }
      DistinctSum(lst[0], Chain(rest));
    }
  }

  lemma DistinctSum(s: seq<nat>, t: seq<nat>)
    requires Distinct(s) && Distinct(t) && forall x :: x in s ==> x !in t
    ensures Distinct(s + t)
  {
    forall i, j | 0 <= i < j < |s + t|
      ensures (s + t)[i] != (s + t)[j]
    {
      if i < |s| <= j {
        assert s[i] in s && t[j - |s|] in t;
      }
    }
  }

  lemma {:induction false} SumIsSize(nodes: seq<Node>, list: seq<TinyList>, lst: seq<seq<nat>>)
    requires |list| == |lst| && forall p :: 0 <= p < |list| ==> list[p].size == SizeOf(nodes, lst[p])
    ensures Sum(list) == SizeOf(nodes, Chain(lst))
    decreases |list|
  {
    if list != [] {
      SumIsSize(nodes, list[1..], lst[1..]);
      SizeSum(nodes, lst[0], Chain(lst[1..]));
    }
  }

  lemma ListsApart(nodes: seq<Node>, list: seq<TinyList>, lst: seq<seq<nat>>)
    requires ListsOk(nodes, list, lst)
    ensures Apart(lst) && |list| == |lst| == N && forall p :: 0 <= p < |list| ==> list[p].size == SizeOf(nodes, lst[p])
  {
    hide SizeOf;
    forall p | 0 <= p < N
      ensures Distinct(lst[p]) && list[p].size == SizeOf(nodes, lst[p]) && forall x :: x in lst[p] ==> x < |nodes| && nodes[x].section == p
    {
      assert ListOk(nodes, list[p], lst[p], p);
    }
    hide ListsOk, Distinct;
  }

  lemma ChainStands(nodes: seq<Node>, list: seq<TinyList>, lst: seq<seq<nat>>,
                    who: map<Key, nat>, key: map<nat, Key>, live: Live)
    requires ListsOk(nodes, list, lst) && IndexOk(nodes, lst, who, key, live)
    ensures StandFor(nodes, Chain(lst), key, EntriesOf(live))
  {
    hide IndexOk, NodeMatches, LengthAt, Total, ListsOk, Chain, SizeOf, Apart;
    ListsApart(nodes, list, lst);
    ChainDistinct(lst);
    var s, c := Chain(lst), EntriesOf(live);
    forall i | 0 <= i < |s|
      ensures s[i] in key && key[s[i]] in c && LengthAt(nodes, s[i]) == Total(c[key[s[i]]])
      ensures key[s[i]] in who && who[key[s[i]]] == s[i]
    {
      InChain(lst, s[i]);
      ListedNode(nodes, lst, who, key, live, s[i]);
    }
    forall k | k in c
      ensures exists i :: 0 <= i < |s| && s[i] in key && key[s[i]] == k
    {
      KeyListed(nodes, lst, who, key, live, k);
      InChain(lst, who[k]);
      assert who[k] in s;
    }
  }

  lemma ListedNode(nodes: seq<Node>, lst: seq<seq<nat>>, who: map<Key, nat>, key: map<nat, Key>, live: Live, x: nat)
    requires IndexOk(nodes, lst, who, key, live) && exists p :: 0 <= p < |lst| && x in lst[p]
    ensures x in key && key[x] in live && LengthAt(nodes, x) == Total(live[key[x]].e) && key[x] in who && who[key[x]] == x
  {
    assert x in key by {
      hide Paired, Described;
    }
    WhereListed(nodes, lst, who, key, live, x);
    MatchedLength(nodes[x], live[key[x]]);
  }

  lemma KeyListed(nodes: seq<Node>, lst: seq<seq<nat>>, who: map<Key, nat>, key: map<nat, Key>, live: Live, k: Key)
    requires IndexOk(nodes, lst, who, key, live) && k in live
    ensures k in who && who[k] in key && key[who[k]] == k && exists p :: 0 <= p < |lst| && who[k] in lst[p]
  {
    WhereListed(nodes, lst, who, key, live, who[k]);
  }

  // The lists' sizes add up to the bytes of the contents.
  lemma SumIsWeight(nodes: seq<Node>, list: seq<TinyList>, lst: seq<seq<nat>>,
                    who: map<Key, nat>, key: map<nat, Key>, live: Live)
    requires ListsOk(nodes, list, lst) && IndexOk(nodes, lst, who, key, live)
    ensures Sum(list) == Weight(EntriesOf(live))
  {
    hide *;
    ListsApart(nodes, list, lst);
    SumIsSize(nodes, list, lst);
    ChainStands(nodes, list, lst, who, key, live);
    SizeIsWeight(nodes, Chain(lst), key, EntriesOf(live));
  }
}
