// Which section is the oldest and which the newest (dev/module/tinyfs/tinyfs.c:215-281, 763-774).
module Discovery {
  import opened Nor
  import opened Ring

  // section_head_data_t
  datatype HeadData = HeadData(loopCount: u16, nodeOffset: u16)

  // The 16-bit number in the header of section k.
  function LoopCount(k: nat): u16 { (k + 1) % 0x1_0000 }

  // A difference of two 16-bit counts, stored in an int16_t.
  function AsInt16(x: int): int {
    var m := x % 0x1_0000;
    if m < 0x8000 then m else m - 0x1_0000
  }

  // The valid headers are those of the sections [lo, lo + n).
  ghost predicate ValidRun(heads: seq<HeadData>, valid: seq<bool>, lo: nat, n: nat) {
    && |heads| == |valid| == N && 0 < n <= N
    && forall k :: lo <= k < lo + N ==>
         valid[Phys(k)] == (k < lo + n) && (k < lo + n ==> heads[Phys(k)].loopCount == LoopCount(k))
  }

  // The section of [lo, lo + n) in the lowest slot: slot 0 if the run goes round the ring.
  function Lowest(lo: nat, n: nat): (f: nat)
    requires 0 < n <= N
    ensures lo <= f < lo + n
  {
    if Phys(lo) + n <= N then lo else lo + N - Phys(lo)
  }

  lemma LowestIsLowest(lo: nat, n: nat, k: nat)
    requires 0 < n <= N && lo <= k < lo + n
    ensures Phys(Lowest(lo, n)) <= Phys(k)
  {
    PhysShift(lo, k - lo);
    PhysShift(lo, Lowest(lo, n) - lo);
  }

  // The count goes from 0xffff to 0 between section w and the next one, inside the run.
  predicate WrapsAt(lo: nat, n: nat, w: nat) { lo <= w < lo + n - 1 && LoopCount(w) == 0xffff }

  // What find_head_tail_section needs: the count does not wrap in the run, or does so before the section
  // that the search starts from, or there are just two sections.
  ghost predicate Discoverable(lo: nat, n: nat)
    requires 0 < n <= N
  {
    n == 2 || forall w: nat :: WrapsAt(lo, n, w) ==> w < Lowest(lo, n)
  }

  lemma NoWrapIsDiscoverable(lo: nat, n: nat)
    requires 0 < n <= N && lo % 0x1_0000 + n <= 0xffff
    ensures Discoverable(lo, n)
  {
    forall w | lo <= w < lo + n - 1
      ensures LoopCount(w) != 0xffff
    {
      var d := w - lo;
      assert (w + 1) % 0x1_0000 == lo % 0x1_0000 + d + 1;
    }
  }

  lemma ThreeAreNeverMisled(lo: nat, n: nat)
    requires N == 3 && 0 < n < N
    ensures Discoverable(lo, n)
  {
  }

  // Three sections in the slots 1 to 3 of a ring of four, with the counts 0xfffe, 0xffff and 0: the search
  // stops at the wrap, between the second and the third.
  lemma FourCanBeMisled()
    requires N == 4
    ensures !Discoverable(0xfffd, 3)
  {
    SlotIs(0xfffd, 0x3fff, 1);
    assert WrapsAt(0xfffd, 3, 0xfffe);
  }

  // Slots come round every N sections.
  lemma {:induction false} PhysCycles(k: nat) returns (q: nat)
    ensures k == q * N + Phys(k)
    decreases k
  {
    if k == 0 {
      q := 0;
    } else {
      q := PhysCycles(k - 1);
      if Phys(k) == 0 {
        q := q + 1;
      }
    }
  }

  lemma SlotIs(k: nat, q: nat, r: nat)
    requires k == q * N + r && r < N
    ensures Phys(k) == r
  {
    var p := PhysCycles(k);
    SameRemainder(p, q, Phys(k), r, N);
  }

  lemma PhysIsRemainder(k: nat)
    ensures Phys(k) == k % N
  {
    SlotIs(k, k / N, k % N);
  }

  lemma SameRemainder(p: nat, q: nat, a: nat, b: nat, m: nat)
    requires p * m + a == q * m + b && a < m && b < m
    ensures a == b
  {
    MultiplesApart(p, q, m);
    MultiplesApart(q, p, m);
  }

  lemma {:induction false} MultiplesApart(p: nat, q: nat, m: nat)
    ensures p < q ==> p * m + m <= q * m
    decreases q
  {
    if p + 1 < q {
      MultiplesApart(p, q - 1, m);
      assert q * m == (q - 1) * m + m;
    } else if p + 1 == q {
      assert q * m == p * m + m;
    }
  }

  // A wrap in the first of three sections misleads the search as long as they do not go round the ring.
  lemma MisledAt(w: nat)
    requires LoopCount(w) == 0xffff && Phys(w) + 3 <= N
    ensures !Discoverable(w, 3)
  {
    assert WrapsAt(w, 3, w);
  }

  lemma MisledBefore(w: nat)
    requires LoopCount(w + 1) == 0xffff && Phys(w) + 3 <= N
    ensures !Discoverable(w, 3)
  {
    assert WrapsAt(w, 3, w + 1);
  }

  lemma SlotBefore(k: nat)
    requires Phys(k + 1) > 0
    ensures Phys(k) == Phys(k + 1) - 1
  {
  }

  // The section after the last slot of the ring's turn at which 0xffff sections have been opened
  lemma TurnsAgain(k: nat)
    requires Phys(k) == N - 1
    ensures Phys(2 * (k + 1)) == 0
  {
    var q := PhysCycles(k);
    assert 2 * (k + 1) == 2 * (q + 1) * N;
    SlotIs(2 * (k + 1), 2 * (q + 1), 0);
  }

  // In any longer ring some run of valid sections is not told aright, with a section to spare.
  lemma LongerRingsCanBeMisled() returns (lo: nat)
    requires N > 3
    ensures !Discoverable(lo, 3)
  {
    hide Phys, Discoverable;
    if Phys(0xfffe) + 3 <= N {
      MisledAt(0xfffe);
      lo := 0xfffe;
    } else if Phys(0xfffe) == N - 2 {
      SlotBefore(0xfffd);
      MisledBefore(0xfffd);
      lo := 0xfffd;
    } else {
      TurnsAgain(0xfffe);
      MisledAt(0x1_fffe);
      lo := 0x1_fffe;
    }
  }

  lemma CountsOn(k: nat)
    ensures LoopCount(k) + 1 == LoopCount(k + 1) <==> LoopCount(k) != 0xffff
  {
  }

  lemma CountWraps(k: nat)
    requires LoopCount(k) == 0xffff
    ensures LoopCount(k + 1) == 0 && AsInt16(0xffff - 0) == -1
  {
  }

  lemma CountsApart(lo: nat, n: nat)
    requires 0 < n <= N
    ensures LoopCount(lo + n - 1) + 1 != LoopCount(lo)
    ensures AsInt16(LoopCount(lo + n - 1) - LoopCount(lo)) == n - 1
  {
    var a, b := lo + 1, lo + n;
    assert (b - a) % 0x1_0000 == n - 1;
    assert (b % 0x1_0000 - a % 0x1_0000) % 0x1_0000 == n - 1;
  }

  lemma InRun(heads: seq<HeadData>, valid: seq<bool>, lo: nat, n: nat, slot: nat) returns (k: nat)
    requires ValidRun(heads, valid, lo, n) && slot < N && valid[slot]
    ensures lo <= k < lo + n && Phys(k) == slot
  {
    k := InSlot(lo, slot);
    InSlotIsThere(lo, slot);
  }

  method GetFirstValidSection(heads: seq<HeadData>, valid: seq<bool>, ghost lo: nat, ghost n: nat) returns (first: nat)
    requires ValidRun(heads, valid, lo, n)
    ensures first == Phys(Lowest(lo, n))
  {
    ghost var f := Lowest(lo, n);
    assert valid[Phys(f)];
    first := 0;
    while !valid[first]
      invariant first <= Phys(f) && forall i :: 0 <= i < first ==> !valid[i]
      decreases Phys(f) - first
    {
      first := first + 1;
    }
    ghost var k := InRun(heads, valid, lo, n, first);
    LowestIsLowest(lo, n, k);
  }

  ghost function NextInRun(lo: nat, n: nat, k: nat): nat { if k + 1 < lo + n then k + 1 else lo }

  lemma PhysOn(k: nat)
    ensures Phys(k + 1) == Next(Phys(k))
  {
  }

  // What the search for the next valid section meets in the slot of section `j`.
  lemma Meets(heads: seq<HeadData>, valid: seq<bool>, lo: nat, n: nat, k: nat, j: nat)
    requires ValidRun(heads, valid, lo, n) && lo <= k < lo + n && k < j <= lo + N && (j > k + 1 ==> k + 1 >= lo + n)
    ensures Phys(j) < |valid| && (j == lo + N ==> Phys(j) == Phys(lo))
    ensures valid[Phys(j)] <==> j == lo + N || j == k + 1 < lo + n
  {
    hide Phys, LoopCount;
    PhysShift(lo, N);
    if j == lo + N {
      assert valid[Phys(lo)];
    }
  }

  method GetNextValidSection(valid: seq<bool>, curr: nat, ghost heads: seq<HeadData>, ghost lo: nat, ghost n: nat, ghost k: nat)
    returns (next: nat)
    requires ValidRun(heads, valid, lo, n) && lo <= k < lo + n && curr == Phys(k)
    ensures next == Phys(NextInRun(lo, n, k))
  {
    hide Phys, ValidRun, Next;
    assert n <= N by {
      RunLength(heads, valid, lo, n);
    }
    PhysOn(k);
    next := Next(curr);
    ghost var j := k + 1;
    Meets(heads, valid, lo, n, k, j);
    while !valid[next]
      invariant k < j <= lo + N && next == Phys(j) && (j > k + 1 ==> k + 1 >= lo + n) && next < |valid|
      invariant j == lo + N ==> next == Phys(lo)
      invariant valid[next] <==> j == lo + N || j == k + 1 < lo + n
      decreases lo + N - j
    {
      PhysOn(j);
      Meets(heads, valid, lo, n, k, j + 1);
      next := Next(next);
      j := j + 1;
    }
  }

  lemma RunLength(heads: seq<HeadData>, valid: seq<bool>, lo: nat, n: nat)
    requires ValidRun(heads, valid, lo, n)
    ensures n <= N
  {
  }

  // The oldest and the newest section are found exactly when the run is discoverable.
  method FindHeadTailSection(heads: seq<HeadData>, valid: seq<bool>, ghost lo: nat, ghost n: nat)
    returns (head: nat, tail: nat, tailCount: u16)
    requires ValidRun(heads, valid, lo, n)
    ensures head < N && tail < N && valid[head] && valid[tail] && tailCount == heads[tail].loopCount
    ensures head == Phys(lo) && tail == Phys(lo + n - 1) <==> Discoverable(lo, n)
  {
    hide Phys, Lowest, Discoverable;
    ghost var f := Lowest(lo, n);
    ghost var p := f;
    var prev := GetFirstValidSection(heads, valid, lo, n);
    var curr := GetNextValidSection(valid, prev, heads, lo, n, p);
    while heads[prev].loopCount + 1 == heads[curr].loopCount
      invariant f <= p < lo + n && prev == Phys(p) && curr == Phys(NextInRun(lo, n, p))
      invariant forall w :: f <= w < p ==> LoopCount(w) != 0xffff
      decreases lo + n - p
    {
      CountsApart(lo, n);
      CountsOn(p);
      prev := curr;
      p := p + 1;
      curr := GetNextValidSection(valid, curr, heads, lo, n, p);
    }
    CountsApart(lo, n);
    CountsOn(p);
    var diff := AsInt16(heads[prev].loopCount - heads[curr].loopCount);
    if diff > 0 {
      head, tail := curr, prev;
    } else {
      head, tail := prev, curr;
    }
    tailCount := heads[tail].loopCount;
    SearchEnds(lo, n, p, head, tail);
  }

  lemma SearchEnds(lo: nat, n: nat, p: nat, head: nat, tail: nat)
    requires 0 < n <= N && Lowest(lo, n) <= p < lo + n
    requires forall w :: Lowest(lo, n) <= w < p ==> LoopCount(w) != 0xffff
    requires p == lo + n - 1 || LoopCount(p) == 0xffff
    requires var up := AsInt16(LoopCount(p) - LoopCount(NextInRun(lo, n, p))) > 0;
             && head == Phys(if up then NextInRun(lo, n, p) else p)
             && tail == Phys(if up then p else NextInRun(lo, n, p))
    ensures head == Phys(lo) && tail == Phys(lo + n - 1) <==> Discoverable(lo, n)
  {
    hide LoopCount, AsInt16, Phys;
    CountsApart(lo, n);
    if p == lo + n - 1 {
      assert forall w: nat :: WrapsAt(lo, n, w) ==> w < Lowest(lo, n);
    } else {
      assert WrapsAt(lo, n, p);
      CountWraps(p);
      if head == Phys(lo) && tail == Phys(lo + n - 1) {
        PhysInjective(lo, p);
        PhysInjective(p + 1, lo + n - 1);
      }
    }
  }
}
