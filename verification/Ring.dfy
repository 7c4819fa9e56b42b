// The ring of flash sections (dev/module/tinyfs/tinyfs.c:194-219, tinyfs_config.h).
//
// Sections are numbered by age: section k is the k-th one ever opened, and lives in slot Phys(k) of the
// ring.  A history lists the bytes written to each section, from the first to the one being filled.
module Ring {
  import opened Nor
  import opened WriteBehind

  type SectionCount = n: int | 3 <= n < 0x8000 witness 3
  type SectionSize = s: int | 0 < s <= 0x8000 && s % SECTOR == 0 witness SECTOR

  // Left without a value: every result holds for every ring and section size.
  const N: SectionCount
  const S: SectionSize

  type BaseAddress = b: nat | b % SECTOR == 0 witness 0
  const BASE: BaseAddress

  const HEAD := 6       // sizeof(section_head_t)
  const C := S - HEAD   // what a section holds besides its header

  function Next(slot: nat): nat { if slot + 1 == N then 0 else slot + 1 }

  function Prev(slot: nat): nat { if slot == 0 then N - 1 else slot - 1 }

  function Phys(k: nat): (slot: nat)
    ensures slot < N
  {
    if k == 0 then 0 else Next(Phys(k - 1))
  }

  lemma {:induction false} PhysShift(k: nat, j: nat)
    requires j <= N
    ensures Phys(k + j) == if Phys(k) + j < N then Phys(k) + j else Phys(k) + j - N
    decreases j
  {
    if j > 0 {
      PhysShift(k, j - 1);
    }
  }

  // Two sections at most a ring apart never share a slot.
  lemma PhysInjective(a: nat, b: nat)
    requires a <= b < a + N && Phys(a) == Phys(b)
    ensures a == b
  {
    PhysShift(a, b - a);
  }

  // The section of the window [lo, lo + N) that lives in a slot.
  function InSlot(lo: nat, slot: nat): (k: nat)
    requires slot < N
    ensures lo <= k < lo + N
  {
    if slot >= Phys(lo) then lo + slot - Phys(lo) else lo + slot + N - Phys(lo)
  }

  lemma InSlotIsThere(lo: nat, slot: nat)
    requires slot < N
    ensures Phys(InSlot(lo, slot)) == slot
  {
    PhysShift(lo, InSlot(lo, slot) - lo);
  }

  function SlotBase(slot: nat): (a: nat)
    ensures a % SECTOR == 0
  {
    if slot == 0 then BASE else SlotBase(slot - 1) + S
  }

  lemma {:induction false} SlotBasesApart(p: nat, q: nat)
    requires p < q
    ensures SlotBase(p) + S <= SlotBase(q)
    decreases q
  {
    if p < q - 1 {
      SlotBasesApart(p, q - 1);
    }
  }

  lemma {:induction false} SlotBaseIsProduct(slot: nat)
    ensures SlotBase(slot) == BASE + slot * S
    decreases slot
  {
    if slot > 0 {
      SlotBaseIsProduct(slot - 1);
      assert slot * S == (slot - 1) * S + S;
    }
  }

  // GET_FLASH_ADDR
  function Address(slot: nat, off: nat): nat { SlotBase(slot) + off }

  function At(k: nat, off: nat): nat { Address(Phys(k), off) }

  lemma Aligned(a: nat, off: nat)
    requires a % SECTOR == 0
    ensures (a + off) % PAGE == off % PAGE
  {
    var m := a / SECTOR;
    assert a + off == (16 * m) * PAGE + off;
  }

  lemma AtInRing(k: nat, off: nat)
    requires off <= S
    ensures At(k, off) <= SlotBase(N)
    ensures off % PAGE == At(k, off) % PAGE
  {
    SlotBasesApart(Phys(k), N);
    Aligned(SlotBase(Phys(k)), off);
  }

  lemma AtApart(lo: nat, k: nat, off: nat, j: nat, q: nat)
    requires lo <= k < lo + N && lo <= j < lo + N && off < S && q < S
    requires At(k, off) == At(j, q)
    ensures k == j && off == q
  {
    if Phys(k) < Phys(j) {
      SlotBasesApart(Phys(k), Phys(j));
    } else if Phys(j) < Phys(k) {
      SlotBasesApart(Phys(j), Phys(k));
    } else if k <= j {
      PhysInjective(k, j);
    } else {
      PhysInjective(j, k);
    }
  }

  // ---- Histories ----

  type History = seq<seq<byte>>

  ghost predicate Wf(h: History) {
    && (forall k :: 0 <= k < |h| ==> HEAD <= |h[k]| <= S)
    && (forall k :: 0 <= k < |h| - 1 ==> |h[k]| == S)
  }

  function Written(h: History, k: nat): nat { if k < |h| then |h[k]| else 0 }

  function ByteAt(h: History, k: nat, off: nat): byte {
    if k < |h| && off < |h[k]| then h[k][off] else ERASED
  }

  // The pages of section k that are not completely written.
  predicate Unfinished(h: History, k: nat, off: nat) { off >= Written(h, k) - Written(h, k) % PAGE }

  // The medium holds the window [lo, lo + N) of the history, the rest of the ring is erased, and no
  // unfinished page has been programmed.
  ghost predicate Holds(m: Medium, h: History, lo: nat) {
    && SlotBase(N) <= |m.view| == |m.programmed|
    && forall k, off {:trigger At(k, off)} ::
         lo <= k < lo + N && 0 <= off < S ==>
           && At(k, off) < |m.view|
           && m.view[At(k, off)] == ByteAt(h, k, off)
           && (Unfinished(h, k, off) ==> !m.programmed[At(k, off)])
  }

  function Extend(h: History, data: seq<byte>): History
    requires h != []
  {
    h[..|h| - 1] + [h[|h| - 1] + data]
  }

  // The tail section takes `data`, and the pages it fills are programmed.
  ghost predicate LaidAtTail(m: Medium, m': Medium, h: History, data: seq<byte>)
    requires h != []
  {
    var a, e := At(|h| - 1, |h[|h| - 1]|), |h[|h| - 1]|;
    Laid(m, m', a, data, a - e % PAGE, a + |data| - (e + |data|) % PAGE)
  }

  lemma HoldsOpens(m: Medium, h: History, lo: nat)
    requires Holds(m, h, lo)
    ensures Holds(m, h + [[]], lo)
  {
    assert forall k, off :: ByteAt(h + [[]], k, off) == ByteAt(h, k, off);
    forall k, off | lo <= k < lo + N && 0 <= off < S
      ensures At(k, off) < |m.view| && m.view[At(k, off)] == ByteAt(h + [[]], k, off)
      ensures Unfinished(h + [[]], k, off) ==> !m.programmed[At(k, off)]
    {
      assert Written(h + [[]], k) == Written(h, k);
    }
  }

  // One byte of the medium
  ghost predicate HoldsAt(m: Medium, h: History, k: nat, off: nat) {
    && At(k, off) < |m.view| == |m.programmed|
    && m.view[At(k, off)] == ByteAt(h, k, off)
    && (Unfinished(h, k, off) ==> !m.programmed[At(k, off)])
  }

  lemma PadsAt(m: Medium, m': Medium, h: History, lo: nat, pad: nat, k: nat, off: nat)
    requires h != [] && lo < |h| <= lo + N && lo <= k < lo + N && off < S && HoldsAt(m, h, k, off)
    requires var e := |h[|h| - 1]|;
             e + pad <= S && (e + pad) % PAGE == 0 && 0 < pad < PAGE && m'.view == m.view
             && Touched(m.programmed, m'.programmed, At(|h| - 1, e + pad) - PAGE, At(|h| - 1, e + pad))
    ensures HoldsAt(m', Extend(h, seq(pad, _ => ERASED)), k, off)
  {
    var t := |h| - 1;
    hide SlotBase, Phys;
    var q := off + At(k, 0) - At(t, 0);
    if 0 <= q < S {
      AtApart(lo, k, off, t, q);
    }
  }

  // Programming the tail's page early fills the rest of it with erased bytes.
  lemma HoldsPads(m: Medium, m': Medium, h: History, lo: nat, pad: nat)
    requires h != [] && lo < |h| <= lo + N
    requires var e := |h[|h| - 1]|;
             e + pad <= S && (e + pad) % PAGE == 0 && 0 < pad < PAGE && m'.view == m.view
             && Touched(m.programmed, m'.programmed, At(|h| - 1, e + pad) - PAGE, At(|h| - 1, e + pad))
    requires Holds(m, h, lo)
    ensures Holds(m', Extend(h, seq(pad, _ => ERASED)), lo)
  {
    var h' := Extend(h, seq(pad, _ => ERASED));
    hide Address, SlotBase, Phys, Extend, ByteAt, Unfinished;
    forall k, off | lo <= k < lo + N && 0 <= off < S
      ensures At(k, off) < |m'.view| && m'.view[At(k, off)] == ByteAt(h', k, off)
      ensures Unfinished(h', k, off) ==> !m'.programmed[At(k, off)]
    {
      assert HoldsAt(m, h, k, off);
      PadsAt(m, m', h, lo, pad, k, off);
    }
  }

  // Reclaiming the oldest section moves the window; its slot waits for the section that comes a ring later.
  lemma HoldsReclaims(m: Medium, m': Medium, h: History, lo: nat)
    requires Holds(m, h, lo) && lo < |h| <= lo + N
    requires |m'.view| == |m.view| && |m'.programmed| == |m.programmed|
    requires forall a :: 0 <= a < |m.view| ==>
               var gone := At(lo, 0) <= a < At(lo, 0) + S;
               m'.view[a] == (if gone then ERASED else m.view[a]) && m'.programmed[a] == (m.programmed[a] && !gone)
    ensures Holds(m', h, lo + 1)
  {
    forall k, off | lo + 1 <= k < lo + 1 + N && 0 <= off < S
      ensures At(k, off) < |m'.view| && m'.view[At(k, off)] == ByteAt(h, k, off)
      ensures Unfinished(h, k, off) ==> !m'.programmed[At(k, off)]
    {
      if k == lo + N {
        PhysShift(lo, N);
        assert At(k, off) == At(lo, off);
      } else {
        assert m.view[At(k, off)] == ByteAt(h, k, off);
        var q := off + At(k, 0) - At(lo, 0);
        if 0 <= q < S {
          AtApart(lo, k, off, lo, q);
          assert false;
        }
      }
    }
  }

  lemma ExtendsAt(m: Medium, m': Medium, h: History, lo: nat, data: seq<byte>, k: nat, off: nat)
    requires h != [] && lo < |h| <= lo + N && |h[|h| - 1]| + |data| <= S
    requires lo <= k < lo + N && off < S && HoldsAt(m, h, k, off) && LaidAtTail(m, m', h, data)
    ensures HoldsAt(m', Extend(h, data), k, off)
  {
    var t := |h| - 1;
    hide SlotBase, Phys;
    var q := off + At(k, 0) - At(t, 0);
    if 0 <= q < S {
      AtApart(lo, k, off, t, q);
    }
  }

  lemma HoldsExtends(m: Medium, m': Medium, h: History, lo: nat, data: seq<byte>)
    requires h != [] && lo < |h| <= lo + N && |h[|h| - 1]| + |data| <= S
    requires Holds(m, h, lo) && LaidAtTail(m, m', h, data)
    ensures Holds(m', Extend(h, data), lo)
  {
    var h' := Extend(h, data);
    assert |m'.view| == |m.view| && |m'.programmed| == |m.programmed|;
    hide Address, SlotBase, Phys, Extend, ByteAt, Unfinished, LaidAtTail;
    forall k, off | lo <= k < lo + N && 0 <= off < S
      ensures At(k, off) < |m'.view| && m'.view[At(k, off)] == ByteAt(h', k, off)
      ensures Unfinished(h', k, off) ==> !m'.programmed[At(k, off)]
    {
      assert HoldsAt(m, h, k, off);
      ExtendsAt(m, m', h, lo, data, k, off);
    }
  }

  // The page that the tail section is in has not been programmed, nor have those after it.
  lemma TailUntouched(m: Medium, h: History, lo: nat, len: nat)
    requires h != [] && lo < |h| <= lo + N && |h[|h| - 1]| + len <= S
    requires Holds(m, h, lo)
    ensures var a, e := At(|h| - 1, |h[|h| - 1]|), |h[|h| - 1]|;
            Untouched(m.programmed, a - e % PAGE, a + len)
  {
    var t, e := |h| - 1, |h[|h| - 1]|;
    var a := At(t, e);
    AtInRing(t, 0);
    forall x | 0 <= a - e % PAGE <= x < |m.programmed| && x - x % PAGE < a + len
      ensures !m.programmed[x]
    {
      var off := x - At(t, 0);
      SamePage(At(t, 0), off);
      assert off - off % PAGE < e + len <= S;
      PageBelow(off);
      assert x == At(t, off);
    }
  }

  lemma SamePage(base: nat, off: nat)
    requires base % PAGE == 0
    ensures (base + off) % PAGE == off % PAGE
  {
  }

  // A page that starts inside a section ends inside it.
  lemma PageBelow(off: nat)
    ensures S % PAGE == 0
    ensures off - off % PAGE < S ==> off - off % PAGE + PAGE <= S
  {
    var m := S / SECTOR;
    assert S == 16 * m * PAGE;
  }

  // Bytes of one section in the medium.
  lemma SectionBytes(m: Medium, h: History, lo: nat, k: nat, off: nat, len: nat) returns (data: seq<byte>)
    requires Holds(m, h, lo) && lo <= k < lo + N && off + len <= S
    ensures At(k, off) + len <= |m.view| && data == m.view[At(k, off)..At(k, off) + len]
    ensures forall i :: 0 <= i < len ==> data[i] == ByteAt(h, k, off + i)
    ensures k < |h| && off + len <= |h[k]| ==> data == h[k][off..off + len]
  {
    AtInRing(k, off + len);
    data := m.view[At(k, off)..At(k, off) + len];
    forall i | 0 <= i < len
      ensures data[i] == ByteAt(h, k, off + i)
    {
      assert m.view[At(k, off + i)] == ByteAt(h, k, off + i);
    }
  }

  // A range of written bytes never reaches past the end of the tail.
  lemma WrittenAvoidsTail(h: History, lo: nat, k: nat, off: nat, len: nat)
    requires lo <= k < |h| <= lo + N && Wf(h) && 0 < len && off + len <= |h[k]|
    ensures var tail := At(|h| - 1, |h[|h| - 1]|);
            At(k, off) + len <= tail || tail <= At(k, off)
  {
    var t := |h| - 1;
    if k != t {
      if Phys(k) < Phys(t) {
        SlotBasesApart(Phys(k), Phys(t));
      } else if Phys(t) < Phys(k) {
        SlotBasesApart(Phys(t), Phys(k));
      } else {
        PhysInjective(k, t);
      }
    }
  }
}
