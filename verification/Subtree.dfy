// What lies under a directory, told from the entries alone (dev/module/tinyfs/tinyfs.c:1332-1346).
module Subtree {
  import opened Nor
  import opened Codec
  import opened LogReplay
  import opened Nodes
  import opened Collector
  import opened Tree

  // Climbing from the directory `p` by parent ids leads to `id`.
  ghost predicate Under(c: Contents, p: nat, id: nat)
    decreases p
  {
    p == id || (0 < p < 0x1_0000 && var k := Dir(p); k in c && c[k].DirAdd? && c[k].parent < p && Under(c, c[k].parent, id))
  }

  // Everything, at any depth, in the directory `id`.
  ghost function Below(c: Contents, id: nat): set<Key> {
    set k | k in c && IsAdd(c[k]) && Under(c, c[k].parent, id)
  }

  // Every entry's parent is the root or an entry itself, of a smaller id if both are directories.
  ghost predicate Closed(c: Contents) {
    forall k :: k in c ==>
      && IsAdd(c[k])
      && (c[k].parent == 0 || Dir(c[k].parent) in c)
      && (k.Dir? ==> c[k].DirAdd? && c[k].parent < k.id)
  }

  lemma {:induction false} UnderMore(c: Contents, c': Contents, p: nat, id: nat)
    requires Under(c', p, id) && forall k :: k in c' ==> k in c && c[k] == c'[k]
    ensures Under(c, p, id)
    decreases p
  {
    if p != id {
      UnderMore(c, c', c'[Dir(p)].parent, id);
    }
  }

  lemma {:induction false} UnderUnder(c: Contents, p: nat, q: nat, id: nat)
    requires Under(c, p, q) && Under(c, q, id)
    ensures Under(c, p, id)
    decreases p
  {
    if p != q {
      UnderUnder(c, c[Dir(p)].parent, q, id);
    }
  }

  // What is below a directory is its children and what is below them, and nothing else.
  lemma BelowIs(c: Contents, id: nat, k: Key)
    requires Closed(c)
    ensures k in Below(c, id) <==> k in c && (c[k].parent == id || Dir(c[k].parent) in Below(c, id))
  {
    if k in c && c[k].parent != id {
      var p: nat := c[k].parent;
      assert p == 0 ==> Dir(0) !in c;
    }
  }

  // A child, and all that is below it, is below the directory.
  lemma BelowChild(c: Contents, k: Key, id: nat)
    requires Closed(c) && k in c && c[k].parent == id
    ensures k in Below(c, id)
    ensures k.Dir? ==> Below(c, k.id) <= Below(c, id)
  {
    if k.Dir? {
      assert Under(c, k.id, id);
      forall j | j in Below(c, k.id)
        ensures j in Below(c, id)
      {
        UnderUnder(c, c[j].parent, k.id, id);
      }
    }
  }

  lemma BelowMore(c: Contents, gone: set<Key>, id: nat)
    ensures Below(c - gone, id) <= Below(c, id)
  {
    forall k | k in Below(c - gone, id)
      ensures k in Below(c, id)
    {
      UnderMore(c, c - gone, c[k].parent, id);
    }
  }

  lemma {:induction false} NoneUnder(c: Contents, gone: set<Key>, id: nat, k: Key)
    requires Closed(c - gone) && k in c - gone
    requires forall j :: j in c - gone ==> c[j].parent != id
    ensures !Under(c, c[k].parent, id)
    decreases c[k].parent
  {
    var p := c[k].parent;
    if Under(c, p, id) {
      NoneUnder(c, gone, id, Dir(p));
    }
  }

  // Once the directory has no child left, all that was below it is gone.
  lemma AllGone(c: Contents, gone: set<Key>, id: nat)
    requires gone <= Below(c, id) && Closed(c - gone)
    requires forall j :: j in c - gone ==> c[j].parent != id
    ensures c - gone == c - Below(c, id)
  {
    forall k | k in c - gone
      ensures k !in Below(c, id)
    {
      NoneUnder(c, gone, id, k);
    }
  }

  lemma NothingBelow(c: Contents, id: nat)
    requires Closed(c) && forall j :: j in c ==> c[j].parent != id
    ensures Below(c, id) == {} && c - Below(c, id) == c
  {
    assert c - {} == c;
    AllGone(c, {}, id);
    assert forall k :: k in c - Below(c, id) ==> k !in Below(c, id);
  }

  // The tree in memory keeps the entries closed.
  lemma TreeCloses(nodes: seq<Node>, lst: seq<seq<nat>>, who: map<Key, nat>, key: map<nat, Key>, live: Live,
                   kids: map<nat, seq<nat>>, dirIdMax: nat)
    requires Joined(nodes, lst, who, key, live, kids, dirIdMax)
    ensures Closed(EntriesOf(live))
  {
    forall k | k in live
      ensures IsAdd(live[k].e) && KeyOf(live[k].e) == k && (live[k].e.parent == 0 || Dir(live[k].e.parent) in live)
    {
      ParentIsDir(nodes, lst, who, key, live, kids, dirIdMax, k);
    }
  }

  lemma ParentIsDir(nodes: seq<Node>, lst: seq<seq<nat>>, who: map<Key, nat>, key: map<nat, Key>, live: Live,
                    kids: map<nat, seq<nat>>, dirIdMax: nat, k: Key)
    requires Joined(nodes, lst, who, key, live, kids, dirIdMax) && k in live
    ensures IsAdd(live[k].e) && KeyOf(live[k].e) == k && (live[k].e.parent == 0 || Dir(live[k].e.parent) in live)
  {
    KeysLive(nodes, lst, who, key, live);
    var x := who[k];
    assert x in key && key[x] == k && AtHome(nodes, kids, x);
    var d := nodes[x].parentDir;
    assert nodes[d].idOrLength == live[k].e.parent;
    hide Joined;
    DirById(nodes, lst, who, key, live, kids, dirIdMax, d);
  }

  // A directory without children has no live entry in it.
  lemma NoChild(nodes: seq<Node>, lst: seq<seq<nat>>, who: map<Key, nat>, key: map<nat, Key>, live: Live,
                kids: map<nat, seq<nat>>, dirIdMax: nat, d: nat)
    requires Joined(nodes, lst, who, key, live, kids, dirIdMax) && d in kids
    ensures d < |nodes|
    ensures kids[d] == [] ==> forall k :: k in live ==> live[k].e.parent != nodes[d].idOrLength
    ensures kids[d] != [] ==> exists k :: k in live && IsAdd(live[k].e) && live[k].e.parent == nodes[d].idOrLength
  {
    DirById(nodes, lst, who, key, live, kids, dirIdMax, d);
    hide Joined;
    if kids[d] == [] {
      forall k | k in live
        ensures live[k].e.parent != nodes[d].idOrLength
      {
        ChildOf(nodes, lst, who, key, live, kids, dirIdMax, d, k);
      }
    } else {
      KidIs(nodes, lst, who, key, live, kids, dirIdMax, d, kids[d][0]);
    }
  }

  // A child directory has a greater id than its parent.
  lemma KidGrows(nodes: seq<Node>, nodeSet: set<nat>, kids: map<nat, seq<nat>>, d: nat, x: nat)
    requires TreeOk(nodes, nodeSet, kids) && d in kids && x in kids[d] && x in nodeSet
    ensures x < |nodes| && d < |nodes| && (nodes[x].IsDir() ==> nodes[d].idOrLength < nodes[x].idOrLength)
  {
    assert ChainOk(nodes, nodeSet, d, kids[d]) && AtHome(nodes, kids, x);
  }

  // Directories with smaller ids are as they were, and the one with this id is still there.
  ghost predicate Spares(kids0: map<nat, seq<nat>>, dirs0: map<nat, u16>, kids: map<nat, seq<nat>>, dirs: map<nat, u16>, id: nat) {
    && (forall e :: e in dirs0 && dirs0[e] <= id ==> e in dirs && dirs[e] == dirs0[e])
    && (forall e :: e in dirs0 && dirs0[e] < id && e in kids0 ==> e in kids && kids[e] == kids0[e])
  }

  // Taking a child out of the directory `d` spares those with smaller ids.
  lemma ChildSpares(kids0: map<nat, seq<nat>>, dirs0: map<nat, u16>, kids: map<nat, seq<nat>>, dirs: map<nat, u16>,
                    d: nat, x: nat, s: seq<nat>)
    requires d in dirs0 && forall e :: e in dirs0 && dirs0[e] <= dirs0[d] ==>
               e in dirs && dirs[e] == dirs0[e] && e != x && (e in kids0 ==> e in kids && kids[e] == kids0[e])
    ensures Spares(kids0, dirs0, kids[d := s] - {x}, dirs - {x}, dirs0[d])
  {
  }
}