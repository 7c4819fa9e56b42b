// The reference-counted element pool (dev/module/static_buffer/linked_buffer.c), over the contracts of
// co_list (dev/module/common/co_list.h:99-143): a list is the sequence of its elements.
module Pool {
  import opened Nor

  type Pointer = int

  class LinkedBuffer {
    const buf: Pointer
    const elementSize: nat
    const bufLength: nat
    var allocatable: seq<Pointer>
    const refCnt: array<byte>

    // Address of element `idx`.
    function Elem(idx: int): Pointer { buf + elementSize * idx }

    lemma {:induction false} ElemsApart(i: nat, j: nat)
      requires i < j
      ensures Elem(i) + elementSize <= Elem(j)
      decreases j
    {
      assert Elem(j) == Elem(j - 1) + elementSize;
      if i < j - 1 {
        ElemsApart(i, j - 1);
      }
    }

    lemma ElemDivides(p: Pointer)
      requires elementSize > 0 && (p - buf) % elementSize == 0
      ensures Elem((p - buf) / elementSize) == p
    {
    }

    lemma IdxOfElem(idx: nat)
      requires elementSize > 0
      ensures (Elem(idx) - buf) % elementSize == 0 && (Elem(idx) - buf) / elementSize == idx
    {
      var d := elementSize * idx;
      var q, r := d / elementSize, d % elementSize;
      assert d == elementSize * q + r;
      if q < idx {
        ElemsApart(q, idx);
      } else if idx < q {
        ElemsApart(idx, q);
      }
    }

    ghost predicate Shaped()
      reads refCnt
    {
      0 < elementSize && refCnt.Length == bufLength
    }

    // The free list holds exactly the elements with no reference, each once, so that it and the held
    // elements share the pool out between them.
    ghost predicate Valid()
      reads this, refCnt
    {
      && Shaped()
      && (forall p :: p in allocatable ==> InPool(p) && refCnt[Idx(p)] == 0)
      && (forall i :: 0 <= i < bufLength && refCnt[i] == 0 ==> Elem(i) in allocatable)
      && (forall i, j :: 0 <= i < j < |allocatable| ==> allocatable[i] != allocatable[j])
      && |allocatable| + |Held()| == bufLength
    }

    // linked_buf_hdl_sanity_check: aligned and in range.
    predicate InPool(p: Pointer) {
      0 < elementSize && (p - buf) % elementSize == 0 && buf <= p < Elem(bufLength)
    }

    function Idx(p: Pointer): (idx: nat)
      requires InPool(p)
      ensures idx < bufLength && Elem(idx) == p
    {
      ElemDivides(p);
      var idx := (p - buf) / elementSize;
      assert idx < bufLength by {
        if idx >= bufLength && idx > bufLength {
          ElemsApart(bufLength, idx);
        }
      }
      idx
    }

    ghost function Held(): set<nat>
      requires Shaped()
      reads refCnt
    {
      set i: nat | i < bufLength && refCnt[i] > 0
    }

    // linked_buf_init: every element free, in address order.
    constructor (base: Pointer, size: nat, length: nat)
      requires 0 < size && length < 0x1_0000
      ensures Valid() && Held() == {} && fresh(refCnt)
      ensures buf == base && elementSize == size && bufLength == length
      ensures forall i :: 0 <= i < length ==> Elem(i) in allocatable
      ensures |allocatable| == length && forall i :: 0 <= i < length ==> allocatable[i] == Elem(i)
    {
      buf, elementSize, bufLength := base, size, length;
      allocatable := [];
      refCnt := new byte[length](_ => 0);
      new;
      var i := 0;
      while i < length
        invariant 0 <= i <= length && |allocatable| == i
        invariant forall j :: 0 <= j < i ==> allocatable[j] == Elem(j)
        invariant forall j :: 0 <= j < length ==> refCnt[j] == 0
      {
        allocatable := allocatable + [Elem(i)];
        i := i + 1;
      }
      Fresh();
    }

    lemma Fresh()
      requires Shaped() && |allocatable| == bufLength
      requires forall j :: 0 <= j < bufLength ==> allocatable[j] == Elem(j) && refCnt[j] == 0
      ensures Valid() && Held() == {}
    {
      forall i, j | 0 <= i < j < bufLength
        ensures allocatable[i] != allocatable[j]
      {
        ElemsApart(i, j);
      }
      forall p | p in allocatable
        ensures InPool(p) && refCnt[Idx(p)] == 0
      {
        var i :| 0 <= i < bufLength && allocatable[i] == p;
        ElemInPool(i);
      }
    }

    lemma ElemInPool(i: nat)
      requires 0 < elementSize && i < bufLength
      ensures InPool(Elem(i)) && Idx(Elem(i)) == i
    {
      IdxOfElem(i);
      ElemsApart(i, bufLength);
      assert elementSize * i >= 0;
    }

    // linked_buf_alloc
    method Alloc() returns (hdr: Pointer, ok: bool)
      requires Valid()
      modifies this`allocatable, refCnt
      ensures Valid() && ok == (old(allocatable) != [])
      ensures !ok ==> Held() == old(Held()) && allocatable == old(allocatable)
      ensures ok ==> hdr == old(allocatable)[0] && allocatable == old(allocatable)[1..] && InPool(hdr)
      ensures ok ==> Idx(hdr) !in old(Held()) && Held() == old(Held()) + {Idx(hdr)}
      ensures forall i :: 0 <= i < bufLength ==>
                refCnt[i] == if ok && i == Idx(hdr) then 1 else old(refCnt[i])
    {
      ok := allocatable != [];
      hdr := buf;
      if ok {
        hdr := allocatable[0];
        assert InPool(hdr) && refCnt[Idx(hdr)] == 0;
        ghost var idx := Idx(hdr);
        allocatable := allocatable[1..];
        refCnt[Idx(hdr)] := refCnt[Idx(hdr)] + 1;
        assert Held() == old(Held()) + {idx};
        assert forall p :: p in old(allocatable) ==> p == hdr || p in allocatable;
        forall i | 0 <= i < bufLength && refCnt[i] == 0
          ensures Elem(i) in allocatable
        {
          ElemInPool(i);
        }
      }
    }

    // linked_buf_retain, for an element that is held fewer than 255 times
    method Retain(hdr: Pointer) returns (count: byte)
      requires Valid() && InPool(hdr) && 0 < refCnt[Idx(hdr)] < 0xff
      modifies refCnt
      ensures Valid() && Held() == old(Held()) && count == refCnt[Idx(hdr)]
      ensures forall i :: 0 <= i < bufLength ==> refCnt[i] == old(refCnt[i]) + if i == Idx(hdr) then 1 else 0
    {
      refCnt[Idx(hdr)] := refCnt[Idx(hdr)] + 1;
      count := refCnt[Idx(hdr)];
      assert Held() == old(Held());
    }

    // linked_buf_release: the last reference makes the element allocatable again.
    method Release(hdr: Pointer) returns (count: byte)
      requires Valid() && InPool(hdr) && 0 < refCnt[Idx(hdr)]
      modifies this`allocatable, refCnt
      ensures Valid() && count == old(refCnt[Idx(hdr)]) - 1
      ensures Held() == if count == 0 then old(Held()) - {Idx(hdr)} else old(Held())
      ensures allocatable == old(allocatable) + if count == 0 then [hdr] else []
      ensures forall i :: 0 <= i < bufLength ==> refCnt[i] == old(refCnt[i]) - if i == Idx(hdr) then 1 else 0
    {
      hide InPool;
      ghost var idx, free := Idx(hdr), allocatable;
      assert hdr !in free;
      refCnt[Idx(hdr)] := refCnt[Idx(hdr)] - 1;
      count := refCnt[Idx(hdr)];
      if count == 0 {
        allocatable := allocatable + [hdr];
        assert Held() == old(Held()) - {idx};
        assert |Held()| == |old(Held())| - 1;
        assert forall p :: p in allocatable <==> p in free || p == hdr;
        assert forall i, j :: 0 <= i < j < |allocatable| ==> allocatable[i] != allocatable[j];
      } else {
        assert Held() == old(Held());
      }
    }

    // linked_buf_contain_element, for any pointer whatever
    method ContainElement(hdr: Pointer) returns (contain: bool)
      requires Valid()
      ensures contain <==> exists i :: i in Held() && hdr == Elem(i)
    {
      contain := InPool(hdr) && refCnt[Idx(hdr)] != 0;
      if exists i :: i in Held() && hdr == Elem(i) {
        var i :| i in Held() && hdr == Elem(i);
        ElemInPool(i);
      }
    }
  }
}
