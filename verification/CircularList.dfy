// The intrusive circular doubly linked list (dev/module/common/circular_doubly_linked_list.c:3-85, 134-137).
module CircularList {
  import opened Sequences

  // struct cdll_hdr
  class Hdr {
    var next: Hdr?
    var prev: Hdr?

    constructor ()
      ensures next == null && prev == null
    {
      next, prev := null, null;
    }
  }

  function Succ(i: nat, n: nat): nat { if i + 1 == n then 0 else i + 1 }

  ghost predicate NoDuplicates(s: seq<Hdr>) { forall i, j :: 0 <= i < j < |s| ==> s[i] != s[j] }

  // Each element's next is the one after it, and that one's prev leads back; the last closes the ring.
  ghost predicate RingOf(s: seq<Hdr>)
    reads s
  {
    && NoDuplicates(s)
    && forall i :: 0 <= i < |s| ==> s[i].next == s[Succ(i, |s|)] && s[Succ(i, |s|)].prev == s[i]
  }

  function Pred(i: nat, n: nat): nat { if i == 0 && n > 0 then n - 1 else if i == 0 then 0 else i - 1 }

  lemma PrevIs(s: seq<Hdr>, i: nat)
    requires RingOf(s) && i < |s|
    ensures s[i].prev == s[Pred(i, |s|)] && s[Pred(i, |s|)].next == s[i]
  {
    assert Succ(Pred(i, |s|), |s|) == i;
  }

  // A ring may be read from any of its elements on.
  function Turned(s: seq<Hdr>, i: nat): seq<Hdr>
    requires i <= |s|
  {
    s[i..] + s[..i]
  }

  lemma TurnedIs(s: seq<Hdr>, i: nat)
    requires i <= |s|
    ensures |Turned(s, i)| == |s|
    ensures forall j :: 0 <= j < |s| ==> Turned(s, i)[j] == if i + j < |s| then s[i + j] else s[i + j - |s|]
    ensures forall x :: x in Turned(s, i) <==> x in s
    ensures NoDuplicates(s) ==> NoDuplicates(Turned(s, i))
  {
    assert s == s[..i] + s[i..];
  }

  // Place `j` of the turned ring, and the place after it
  lemma TurnedLink(s: seq<Hdr>, i: nat, j: nat)
    requires RingOf(s) && i <= |s| && j < |s|
    ensures var t := Turned(s, i);
            |t| == |s| && t[j].next == t[Succ(j, |t|)] && t[Succ(j, |t|)].prev == t[j]
  {
    var k := if i + j < |s| then i + j else i + j - |s|;
    TurnedAt(s, i, j);
    TurnedAt(s, i, Succ(j, |s|));
    hide Turned, NoDuplicates;
    assert s[k].next == s[Succ(k, |s|)];
  }

  lemma TurnedAt(s: seq<Hdr>, i: nat, j: nat)
    requires i <= |s| && j < |s|
    ensures |Turned(s, i)| == |s| && Turned(s, i)[j] == if i + j < |s| then s[i + j] else s[i + j - |s|]
  {
  }

  lemma RingTurns(s: seq<Hdr>, i: nat)
    requires RingOf(s) && i <= |s|
    ensures RingOf(Turned(s, i))
  {
    TurnedIs(s, i);
    var t := Turned(s, i);
    hide NoDuplicates, Turned;
    forall j | 0 <= j < |t|
      ensures t[j].next == t[Succ(j, |t|)] && t[Succ(j, |t|)].prev == t[j]
    {
      TurnedLink(s, i, j);
    }
  }

  // After an element has left or joined at the end of the turned ring, it is turned back.
  lemma TurnsBack(s: seq<Hdr>, i: nat, h: Hdr)
    requires i <= |s|
    ensures Turned(Turned(s, i) + [h], |s| - i) == Inserted(s, i, h)
    ensures i < |s| ==> |Turned(s, i)| == |s| && Turned(Turned(s, i)[1..], |s| - 1 - i) == Without(s, i)
    ensures |Inserted(s, i, h)| == |s| + 1 && Inserted(s, i, h)[0] == if i == 0 then h else s[0]
    ensures i < |s| ==> |Without(s, i)| == |s| - 1 && (|s| > 1 ==> Without(s, i)[0] == if i == 0 then s[1] else s[0])
    ensures i < |s| ==> forall x :: x in Without(s, i) ==> x in s
    ensures forall x :: x in Inserted(s, i, h) ==> x in s || x == h
  {
    var t := Turned(s, i) + [h];
    assert t[|s| - i..] == s[..i] + [h] && t[..|s| - i] == s[i..];
    if i < |s| {
      var u := Turned(s, i)[1..];
      assert u[|s| - 1 - i..] == s[..i] && u[..|s| - 1 - i] == s[i + 1..];
    }
  }

  // The four assignments that put `hdr` between the last and the first element of the ring `t`.
  method LinkBetween(last: Hdr, hdr: Hdr, first: Hdr, ghost t: seq<Hdr>)
    requires RingOf(t) && t != [] && t[0] == first && t[|t| - 1] == last && hdr !in t
    modifies t, hdr
    ensures RingOf(t + [hdr])
  {
    last.next := hdr;
    hdr.prev := last;
    hdr.next := first;
    first.prev := hdr;
  }

  // The assignments that take the first element out of a ring of several.
  method Unlink(hdr: Hdr, ghost t: seq<Hdr>)
    requires RingOf(t) && |t| > 1 && t[0] == hdr
    modifies t
    ensures RingOf(t[1..]) && hdr.next == null && hdr.prev == null
  {
    PrevIs(t, 0);
    assert t[0].next == t[1];
    hdr.prev.next := hdr.next;
    hdr.next.prev := hdr.prev;
    hdr.next := null;
    hdr.prev := null;
  }

  lemma EmptyRing()
    ensures RingOf([])
  {
  }

  // struct cdll
  class Cdll {
    var first: Hdr?
    ghost var elems: seq<Hdr>

    ghost predicate Valid()
      reads this, elems
    {
      RingOf(elems) && first == if elems == [] then null else elems[0]
    }

    // cdll_init
    constructor ()
      ensures Valid() && elems == []
    {
      first, elems := null, [];
    }

    // cdll_push_back
    method PushBack(hdr: Hdr)
      requires Valid() && hdr !in elems
      modifies this, elems, hdr
      ensures Valid() && elems == old(elems) + [hdr]
    {
      if first != null {
        PrevIs(elems, 0);
        LinkBetween(first.prev, hdr, first, elems);
      } else {
        first := hdr;
        hdr.next := hdr;
        hdr.prev := hdr;
      }
      elems := elems + [hdr];
    }

    // cdll_pop_front
    method PopFront() returns (head: Hdr?)
      requires Valid()
      modifies this, elems
      ensures Valid() && (head == null <==> old(elems) == [])
      ensures head == null ==> elems == []
      ensures head != null ==> head == old(elems)[0] && elems == old(elems)[1..] && head.next == null && head.prev == null
    {
      if first == null {
        return null;
      }
      head := first;
      assert elems[0].next == elems[Succ(0, |elems|)];
      if head.next == head {
        first := null;
        head.next := null;
        head.prev := null;
      } else {
        first := head.next;
        Unlink(head, elems);
      }
      elems := elems[1..];
    }

    // cdll_extract; `i` is where the element is.
    method Extract(hdr: Hdr, ghost i: nat)
      requires Valid() && i < |elems| && elems[i] == hdr
      modifies this, elems
      ensures Valid() && elems == Without(old(elems), i) && hdr.next == null && hdr.prev == null
    {
      hide Turned, RingOf, Inserted, Without, NoDuplicates;
      ghost var s, t := elems, Turned(elems, i);
      RingTurns(s, i);
      TurnedIs(s, i);
      TurnsBack(s, i, hdr);
      NextIs(s, i);
      if hdr.prev == hdr {
        first := null;
        hdr.next := null;
        hdr.prev := null;
        assert Without(s, i) == [];
        EmptyRing();
      } else {
        if first == hdr {
          first := hdr.next;
        }
        Unlink(hdr, t);
        RingTurns(t[1..], |s| - 1 - i);
      }
      elems := Without(elems, i);
    }

    // cdll_insert_before
    method InsertBefore(refHdr: Hdr, hdr: Hdr, ghost i: nat)
      requires Valid() && i < |elems| && elems[i] == refHdr && hdr !in elems
      modifies this, elems, hdr
      ensures Valid() && elems == Inserted(old(elems), i, hdr)
    {
      hide Turned, RingOf, Inserted, Without, NoDuplicates;
      ghost var s, t := elems, Turned(elems, i);
      RingTurns(s, i);
      TurnedIs(s, i);
      TurnsBack(s, i, hdr);
      NextIs(s, i);
      var updateHead := first == refHdr;
      LinkBetween(refHdr.prev, hdr, refHdr, t);
      RingTurns(t + [hdr], |s| - i);
      if updateHead {
        first := hdr;
      }
      elems := Inserted(elems, i, hdr);
    }

    // cdll_insert_after, which leaves the first element what it is
    method InsertAfter(refHdr: Hdr, hdr: Hdr, ghost i: nat)
      requires Valid() && i < |elems| && elems[i] == refHdr && hdr !in elems
      modifies this`elems, elems, hdr
      ensures Valid() && elems == Inserted(old(elems), i + 1, hdr) && first == old(first)
    {
      hide Turned, RingOf, Inserted, Without, NoDuplicates;
      ghost var s, t := elems, Turned(elems, i + 1);
      RingTurns(s, i + 1);
      TurnedIs(s, i + 1);
      TurnsBack(s, i + 1, hdr);
      NextIs(s, i);
      LinkBetween(refHdr, hdr, refHdr.next, t);
      RingTurns(t + [hdr], |s| - 1 - i);
      elems := Inserted(elems, i + 1, hdr);
    }
  }

  // cdll_is_elem_linked: whether the header, detached or in any of the lists there are, is in one.
  method IsElemLinked(hdr: Hdr, ghost lists: set<Cdll>) returns (linked: bool)
    requires forall l :: l in lists ==> l.Valid()
    requires (hdr.next == null && hdr.prev == null) || exists l :: l in lists && hdr in l.elems
    ensures linked <==> exists l :: l in lists && hdr in l.elems
  {
    linked := hdr.next != null && hdr.prev != null;
    if l :| l in lists && hdr in l.elems {
      ghost var i :| 0 <= i < |l.elems| && l.elems[i] == hdr;
      NextIs(l.elems, i);
    }
  }

  // Where an element is, its links are; only in a ring of one does it link to itself, and only the first
  // element is the first.
  lemma NextIs(s: seq<Hdr>, i: nat)
    requires RingOf(s) && i < |s|
    ensures s[i].next == s[Succ(i, |s|)] && s[i].next != null && s[i].prev != null && s[i].prev == s[Pred(i, |s|)]
    ensures (s[i] == s[Pred(i, |s|)] <==> |s| == 1) && (s[i] == s[0] <==> i == 0)
  {
    PrevIs(s, i);
  }
}
