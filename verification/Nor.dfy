// NOR flash: a sector erase sets every byte of the sector to 0xff, and a page may be
// programmed once between two erases of its sector.
module Nor {
  type byte = x: int | 0 <= x < 0x100
  type u16 = x: int | 0 <= x < 0x1_0000

  const PAGE := 256
  const SECTOR := 0x1000
  const ERASED: byte := 0xff

  // The flat memory with `data` laid over it at `offset`.
  ghost predicate Overlaid(before: seq<byte>, after: seq<byte>, offset: nat, data: seq<byte>) {
    && |after| == |before|
    && offset + |data| <= |before|
    && forall a :: 0 <= a < |before| ==>
         after[a] == if offset <= a < offset + |data| then data[a - offset] else before[a]
  }

  class Flash {
    var mem: seq<byte>
    ghost var programmed: seq<bool>  // which bytes were programmed since their last erase

    ghost predicate Valid()
      reads this
    {
      && |mem| % SECTOR == 0
      && |programmed| == |mem|
      && forall a :: 0 <= a < |mem| && !programmed[a] ==> mem[a] == ERASED
    }

    constructor (size: nat)
      requires size % SECTOR == 0
      ensures Valid() && mem == seq(size, _ => ERASED) && programmed == seq(size, _ => false)
    {
      mem := seq(size, _ => ERASED);
      programmed := seq(size, _ => false);
    }

    method SectorErase(addr: nat)
      requires Valid() && addr % SECTOR == 0 && addr + SECTOR <= |mem|
      modifies this
      ensures Valid() && |mem| == |old(mem)|
      ensures forall a :: 0 <= a < |mem| ==>
                mem[a] == if addr <= a < addr + SECTOR then ERASED else old(mem)[a]
      ensures forall a :: 0 <= a < |mem| ==>
                programmed[a] == (old(programmed)[a] && !(addr <= a < addr + SECTOR))
    {
      mem := mem[..addr] + seq(SECTOR, _ => ERASED) + mem[addr + SECTOR..];
      programmed := programmed[..addr] + seq(SECTOR, _ => false) + programmed[addr + SECTOR..];
    }

    // The obligation about `programmed` is the NOR rule.
    method PageProgram(addr: nat, data: seq<byte>)
      requires Valid() && addr % PAGE == 0 && |data| == PAGE && addr + PAGE <= |mem|
      requires forall a :: addr <= a < addr + PAGE ==> !programmed[a]
      modifies this
      ensures Valid() && |mem| == |old(mem)|
      ensures forall a :: 0 <= a < |mem| ==>
                mem[a] == if addr <= a < addr + PAGE then data[a - addr] else old(mem)[a]
      ensures forall a :: 0 <= a < |mem| ==> programmed[a] == (old(programmed)[a] || addr <= a < addr + PAGE)
    {
      mem := mem[..addr] + data + mem[addr + PAGE..];
      programmed := programmed[..addr] + seq(PAGE, _ => true) + programmed[addr + PAGE..];
    }

    // Power is lost while `size` bytes are erased or programmed: they are `junk`, and must be erased again.
    method Torn(addr: nat, size: nat, junk: seq<byte>)
      requires Valid() && addr + size <= |mem| && |junk| == size
      modifies this
      ensures Valid() && |mem| == |old(mem)|
      ensures forall a :: 0 <= a < |mem| ==> mem[a] == if addr <= a < addr + size then junk[a - addr] else old(mem)[a]
      ensures forall a :: 0 <= a < |mem| ==> programmed[a] == (old(programmed)[a] || addr <= a < addr + size)
    {
      mem := mem[..addr] + junk + mem[addr + size..];
      programmed := programmed[..addr] + seq(size, _ => true) + programmed[addr + size..];
    }

    function Read(addr: nat, len: nat): (data: seq<byte>)
      requires addr + len <= |mem|
      reads this
    {
      mem[addr..addr + len]
    }
  }
}
