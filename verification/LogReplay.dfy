// What the log means: replaying its nodes from the oldest on (dev/module/tinyfs/tinyfs.c:398-512), and why
// the oldest section, tombstones included, may be dropped (dev/module/tinyfs/tinyfs.c:927-998).
module LogReplay {
  import opened Nor
  import opened Codec
  import opened MountWalk

  // What record_compare and dir_compare look a node up by.
  datatype Key = Rec(parent: u16, name: u16) | Dir(id: u16)

  function KeyOf(e: Entry): Key {
    match e
    case RecordAdd(name, parent, _) => Rec(parent, name)
    case DirAdd(_, _, id) => Dir(id)
    case RecordRemove(name, parent) => Rec(parent, name)
    case DirRemove(id) => Dir(id)
  }

  predicate IsAdd(e: Entry) { e.RecordAdd? || e.DirAdd? }

  type Live = map<Key, Item>

  function Apply(m: Live, it: Item): Live {
    if IsAdd(it.e) then m[KeyOf(it.e) := it] else m - {KeyOf(it.e)}
  }

  function Replay(s: seq<Item>): Live {
    if s == [] then map[] else Apply(Replay(s[..|s| - 1]), s[|s| - 1])
  }

  lemma ReplayOne(s: seq<Item>, it: Item)
    ensures Replay(s + [it]) == Apply(Replay(s), it)
  {
    assert (s + [it])[..|s|] == s;
  }

  // Every live key is held by an add of that key somewhere in the log.
  lemma {:induction false} ReplayHolds(s: seq<Item>, key: Key)
    requires key in Replay(s)
    ensures Replay(s)[key] in s && IsAdd(Replay(s)[key].e) && KeyOf(Replay(s)[key].e) == key
    decreases |s|
  {
    var s0, it := s[..|s| - 1], s[|s| - 1];
    if key != KeyOf(it.e) {
      ReplayHolds(s0, key);
    }
  }

  predicate Mentions(s: seq<Item>, key: Key) {
    exists i :: 0 <= i < |s| && KeyOf(s[i].e) == key
  }

  lemma MentionsOneMore(s: seq<Item>, it: Item, key: Key)
    ensures Mentions(s + [it], key) <==> Mentions(s, key) || KeyOf(it.e) == key
  {
    if Mentions(s, key) {
      var i :| 0 <= i < |s| && KeyOf(s[i].e) == key;
      assert KeyOf((s + [it])[i].e) == key;
    }
    assert (s + [it])[|s|] == it;
  }

  // A later stretch of the log decides every key it mentions.
  lemma {:induction false} ReplaySplits(a: seq<Item>, b: seq<Item>, key: Key)
    ensures Mentions(b, key) ==> (key in Replay(a + b) <==> key in Replay(b))
    ensures Mentions(b, key) && key in Replay(b) ==> Replay(a + b)[key] == Replay(b)[key]
    ensures !Mentions(b, key) ==> key !in Replay(b) && (key in Replay(a + b) <==> key in Replay(a))
    ensures !Mentions(b, key) && key in Replay(a) ==> Replay(a + b)[key] == Replay(a)[key]
    decreases |b|
  {
    if b == [] {
      assert a + b == a;
    } else {
      var b0, it := b[..|b| - 1], b[|b| - 1];
      assert a + b == (a + b0) + [it] && b == b0 + [it];
      ReplayOne(a + b0, it);
      ReplayOne(b0, it);
      ReplaySplits(a, b0, key);
      MentionsOneMore(b0, it, key);
      hide Replay, Mentions;
    }
  }

  // Dropping a prefix of the log that holds no live node, other than those in `skip`, changes nothing
  // else: no live node is lost and, though tombstones go too, no deleted one comes back.
  lemma PrefixDrops(a: seq<Item>, b: seq<Item>, skip: set<Key>)
    requires forall key :: key in Replay(a + b) && key !in skip ==> Replay(a + b)[key] !in a
    ensures Replay(b) - skip == Replay(a + b) - skip
  {
    forall key | key !in skip
      ensures key in Replay(b) <==> key in Replay(a + b)
      ensures key in Replay(b) ==> Replay(b)[key] == Replay(a + b)[key]
    {
      ReplaySplits(a, b, key);
      if key in Replay(a) {
        ReplayHolds(a, key);
      }
    }
  }

  // ---- Sections ----

  // The nodes of the sections from `from` on, in log order.
  function Flat(items: Items, from: nat): seq<Item>
    decreases |items| - from
  {
    if from >= |items| then [] else items[from] + Flat(items, from + 1)
  }

  // Every node is listed under the section it starts in.
  ghost predicate Placed(items: Items) {
    forall k, i :: 0 <= k < |items| && 0 <= i < |items[k]| ==> items[k][i].at.k == k
  }

  lemma {:induction false} FlatPlaces(items: Items, from: nat, it: Item)
    requires Placed(items) && it in Flat(items, from)
    ensures from <= it.at.k < |items|
    decreases |items| - from
  {
    if from < |items| && it !in items[from] {
      FlatPlaces(items, from + 1, it);
    }
  }

  // An item that can follow all others.
  predicate Follows(items: Items, it: Item) { |items| - 1 <= it.at.k <= |items| }

  lemma {:induction false} FlatAdds(items: Items, sections: nat, it: Item, from: nat)
    requires Follows(items, it) && from <= it.at.k
    ensures Flat(AddItem(items, sections, it), from) == Flat(items, from) + [it]
    decreases it.at.k - from
  {
    var items' := AddItem(items, sections, it);
    if from == it.at.k {
      assert Flat(items', from + 1) == [];
      assert from == |items| ==> items'[from] == [it] && Flat(items, from) == [];
      assert from < |items| ==> Flat(items, from + 1) == [];
    } else {
      FlatAdds(items, sections, it, from + 1);
      assert items'[from] == items[from];
      assert items[from] + (Flat(items, from + 1) + [it]) == items[from] + Flat(items, from + 1) + [it];
    }
  }

  lemma PlacedAdds(items: Items, sections: nat, it: Item)
    requires Placed(items) && Follows(items, it)
    ensures Placed(AddItem(items, sections, it))
  {
  }

  lemma {:induction false} FlatSplits(items: Items, lo: nat, n: nat)
    requires lo <= n <= |items|
    ensures Flat(items, lo) == Flat(items[..n], lo) + Flat(items, n)
    decreases n - lo
  {
    if lo == n {
      assert Flat(items[..n], lo) == [];
    } else {
      FlatSplits(items, lo + 1, n);
      assert items[..n][lo] == items[lo];
    }
  }

  // ---- Space in the node pool while the log is replayed ----

  ghost predicate PoolFits(s: seq<Item>, capacity: nat) {
    forall n :: 0 <= n <= |s| ==> |Replay(s[..n])| <= capacity
  }

  lemma SubsetCounts<T>(a: set<T>, b: set<T>)
    requires a <= b
    ensures |a| <= |b|
  {
    assert b == a + (b - a);
  }

  // A log that could be written with `capacity` nodes can be replayed with them from any point on.
  lemma SuffixFits(a: seq<Item>, b: seq<Item>, capacity: nat)
    requires PoolFits(a + b, capacity)
    ensures PoolFits(b, capacity)
  {
    forall n | 0 <= n <= |b|
      ensures |Replay(b[..n])| <= capacity
    {
      assert (a + b)[..|a| + n] == a + b[..n];
      forall key | key in Replay(b[..n])
        ensures key in Replay(a + b[..n])
      {
        ReplaySplits(a, b[..n], key);
      }
      SubsetCounts(Replay(b[..n]).Keys, Replay(a + b[..n]).Keys);
      assert |Replay(b[..n])| == |Replay(b[..n]).Keys|;
      assert |Replay(a + b[..n])| == |Replay(a + b[..n]).Keys|;
    }
  }

  lemma PoolFitsOneMore(s: seq<Item>, it: Item, capacity: nat)
    requires PoolFits(s, capacity) && |Replay(s + [it])| <= capacity
    ensures PoolFits(s + [it], capacity)
  {
    forall n | 0 <= n <= |s| + 1
      ensures |Replay((s + [it])[..n])| <= capacity
    {
      if n <= |s| {
        assert (s + [it])[..n] == s[..n];
      } else {
        assert (s + [it])[..n] == s + [it];
      }
    }
  }
}
