// The bootloader's image copy and its restart after a power loss
// (dev/bootloader/boot_ram/boot_ram_le501x.c:273-287, 310-315, dev/soc/arm_cm/le501x/platform.c:501-564).
module Bootloader {
  import opened Nor

  const PAGES_PER_SECTOR := 16  // FLASH_SECTOR_SIZE / FLASH_PAGE_SIZE

  // CEILING of common.h
  function Ceiling(dividend: nat, divisor: nat): nat
    requires divisor > 0
  {
    dividend / divisor + if dividend % divisor != 0 then 1 else 0
  }

  // Just enough pages for the image
  lemma PagesCover(size: nat)
    ensures size <= Ceiling(size, PAGE) * PAGE < size + PAGE
  {
  }

  // The end of the last sector that the first `i` pages reach, in pages.
  function SectorEnd(i: nat): (n: nat)
    ensures i <= n < i + PAGES_PER_SECTOR && n % PAGES_PER_SECTOR == 0
  {
    (i + PAGES_PER_SECTOR - 1) / PAGES_PER_SECTOR * PAGES_PER_SECTOR
  }

  lemma SectorEndNext(i: nat)
    ensures SectorEnd(i + 1) == if i % PAGES_PER_SECTOR == 0 then i + PAGES_PER_SECTOR else SectorEnd(i)
    ensures i % PAGES_PER_SECTOR == 0 ==> SectorEnd(i) == i
  {
    var q, r := i / 16, i % 16;
    assert i == 16 * q + r;
    assert (i + 15) / 16 == if r == 0 then q else q + 1;
    assert (i + 16) / 16 == q + 1;
  }

  lemma SectorStart(dst: nat, i: nat)
    requires dst % SECTOR == 0
    ensures (dst + i * PAGE) % PAGE == 0
    ensures i % PAGES_PER_SECTOR == 0 ==> (dst + i * PAGE) % SECTOR == 0
  {
    var d, q := dst / SECTOR, i / 16;
    assert dst == SECTOR * d;
    assert dst + i * PAGE == (16 * d + i) * PAGE;
    assert i % 16 == 0 ==> i == 16 * q && dst + i * PAGE == (d + q) * SECTOR;
  }

  lemma SectorEndGrows(i: nat, n: nat)
    requires i <= n
    ensures SectorEnd(i) <= SectorEnd(n)
    decreases n - i
  {
    if i < n {
      SectorEndNext(n - 1);
      SectorEndGrows(i, n - 1);
    }
  }

  // ---- The request for a copy, in the last sector of the flash ----

  // fota_image_info: the image's address and size
  datatype Info = Info(base: nat, size: nat)

  // Where flash is mapped in the address space (FLASH_BASE_ADDR)
  type MapAddress = b: nat | b < 0x1_0000_0000 witness 0
  const FLASH_BASE: MapAddress

  const WORD_MAX := 0xffff_ffff

  // A 32-bit word, least byte first
  function Word(mem: seq<byte>, at: nat): (w: nat)
    requires at + 4 <= |mem|
    ensures w <= WORD_MAX
  {
    (mem[at] as int) + 0x100 * (mem[at + 1] as int) + 0x1_0000 * (mem[at + 2] as int) + 0x100_0000 * (mem[at + 3] as int)
  }

  // get_ota_status_offset
  function StatusOffset(mem: seq<byte>): nat
    requires |mem| >= SECTOR
  {
    |mem| - PAGE + 0x10
  }

  function Settings(mem: seq<byte>): nat
    requires |mem| >= SECTOR
  {
    |mem| - SECTOR
  }

  // The two words, each followed eight bytes later by its complement
  predicate Requested(mem: seq<byte>)
    requires |mem| >= SECTOR
  {
    var at := StatusOffset(mem);
    Word(mem, at + 8) == WORD_MAX - Word(mem, at) && Word(mem, at + 12) == WORD_MAX - Word(mem, at + 4)
  }

  function Request(mem: seq<byte>): Info
    requires |mem| >= SECTOR
  {
    Info(Word(mem, StatusOffset(mem)), Word(mem, StatusOffset(mem) + 4))
  }

  // A 32-bit word as ota_copy_info_set lays it down
  function Le32(x: nat): (b: seq<byte>)
    requires x <= WORD_MAX
    ensures |b| == 4
  {
    [x % 0x100, x / 0x100 % 0x100, x / 0x100 / 0x100 % 0x100, x / 0x100 / 0x100 / 0x100]
  }

  lemma WordIs(mem: seq<byte>, at: nat, x: nat)
    requires at + 4 <= |mem| && x <= WORD_MAX
    ensures mem[at..at + 4] == Le32(x) <==> Word(mem, at) == x
  {
    var s := mem[at..at + 4];
    assert s[0] == mem[at] && s[1] == mem[at + 1] && s[2] == mem[at + 2] && s[3] == mem[at + 3];
    Digits(mem[at], mem[at + 1], mem[at + 2], mem[at + 3], x);
  }

  lemma Digits(b0: byte, b1: byte, b2: byte, b3: byte, x: nat)
    ensures b0 == x % 0x100 && b1 == x / 0x100 % 0x100 && b2 == x / 0x100 / 0x100 % 0x100 && b3 == x / 0x100 / 0x100 / 0x100 <==>
            (b0 as int) + 0x100 * (b1 as int) + 0x1_0000 * (b2 as int) + 0x100_0000 * (b3 as int) == x
  {
    var q2 := (b2 as int) + 0x100 * (b3 as int);
    var q1 := (b1 as int) + 0x100 * q2;
    Digit(b0, q1, x);
    Digit(b1, q2, x / 0x100);
    Digit(b2, b3, x / 0x100 / 0x100);
  }

  lemma Digit(b: byte, q: int, x: nat)
    ensures b == x % 0x100 && q == x / 0x100 <==> (b as int) + 0x100 * q == x
  {
  }

  // What the settings hold is the request for an image exactly when they hold its address and size and the
  // complements of both, from 16 bytes into the last page on.
  lemma RequestIs(mem: seq<byte>, info: Info)
    requires |mem| >= SECTOR && info.base <= WORD_MAX && info.size <= WORD_MAX
    ensures var at := |mem| - 256 + 16;
            Requested(mem) && Request(mem) == info <==>
            && mem[at..at + 4] == Le32(info.base) && mem[at + 4..at + 8] == Le32(info.size)
            && mem[at + 8..at + 12] == Le32(0xffff_ffff - info.base) && mem[at + 12..at + 16] == Le32(0xffff_ffff - info.size)
  {
    hide Word, Le32;
    var at := |mem| - 256 + 16;
    WordIs(mem, at, info.base);
    WordIs(mem, at + 4, info.size);
    WordIs(mem, at + 8, WORD_MAX - info.base);
    WordIs(mem, at + 12, WORD_MAX - info.size);
  }

  // The four bytes at `b` are the complements of those at `a`.
  predicate Complement(mem: seq<byte>, a: nat, b: nat)
    requires a + 4 <= |mem| && b + 4 <= |mem|
  {
    && mem[b] == 0xff - mem[a] && mem[b + 1] == 0xff - mem[a + 1]
    && mem[b + 2] == 0xff - mem[a + 2] && mem[b + 3] == 0xff - mem[a + 3]
  }

  // Word by word the complement is a complement byte by byte.
  lemma ComplementBytes(mem: seq<byte>, a: nat, b: nat)
    requires a + 4 <= |mem| && b + 4 <= |mem|
    ensures Word(mem, b) == WORD_MAX - Word(mem, a) <==> Complement(mem, a, b)
  {
    SumsToOnes((mem[a] as int) + mem[b], (mem[a + 1] as int) + mem[b + 1],
               (mem[a + 2] as int) + mem[b + 2], (mem[a + 3] as int) + mem[b + 3]);
  }

  lemma SumsToOnes(x0: int, x1: int, x2: int, x3: int)
    requires 0 <= x0 <= 510 && 0 <= x1 <= 510 && 0 <= x2 <= 510 && 0 <= x3 <= 510
    ensures x0 + 0x100 * x1 + 0x1_0000 * x2 + 0x100_0000 * x3 == WORD_MAX <==> x0 == x1 == x2 == x3 == 0xff
  {
  }

  // An erase turns bits from 0 to 1 and none back: however far it has come, no byte is smaller than it was.
  ghost predicate Raised(before: seq<byte>, after: seq<byte>) {
    |after| == |before| && forall a :: 0 <= a < |before| ==> before[a] <= after[a]
  }

  // What an erase of `before` leaves when it is cut; every outcome in which no byte gets smaller is one.
  function CutErase(before: seq<byte>, mask: seq<byte>): (after: seq<byte>)
    requires |mask| == |before|
    ensures Raised(before, after) && (Raised(before, mask) ==> after == mask)
  {
    seq(|before|, a requires 0 <= a < |before| => if mask[a] > before[a] then mask[a] else before[a])
  }

  lemma RaisedWord(before: seq<byte>, after: seq<byte>, a: nat, b: nat)
    requires Raised(before, after) && a + 4 <= |before| && b + 4 <= |before|
    requires Word(before, b) == WORD_MAX - Word(before, a) && Word(after, b) == WORD_MAX - Word(after, a)
    ensures Word(after, a) == Word(before, a)
  {
    ComplementBytes(before, a, b);
    ComplementBytes(after, a, b);
  }

  lemma SameWord(m: seq<byte>, m': seq<byte>, at: nat)
    requires |m| == |m'| && at + 4 <= |m| && m'[at..at + 4] == m[at..at + 4]
    ensures Word(m', at) == Word(m, at)
  {
    var s, s' := m[at..at + 4], m'[at..at + 4];
    assert s'[0] == s[0] && s'[1] == s[1] && s'[2] == s[2] && s'[3] == s[3];
  }

  // However an erase of the settings is cut, what is left is the same request or none.
  lemma RequestSurvivesOrGoes(before: seq<byte>, after: seq<byte>)
    requires |before| >= SECTOR && Raised(before, after) && Requested(before)
    ensures Requested(after) ==> Request(after) == Request(before)
  {
    hide Word;
    if Requested(after) {
      var at := StatusOffset(before);
      RaisedWord(before, after, at, at + 8);
      RaisedWord(before, after, at + 4, at + 12);
    }
  }

  // Memories that agree on the last page hold the same request.
  lemma SameRequest(m: seq<byte>, m': seq<byte>)
    requires |m| == |m'| >= SECTOR && forall a :: Settings(m) <= a < |m| ==> m'[a] == m[a]
    ensures Requested(m') == Requested(m) && Request(m') == Request(m)
  {
    hide Word;
    var at := StatusOffset(m);
    SameWord(m, m', at);
    SameWord(m, m', at + 4);
    SameWord(m, m', at + 8);
    SameWord(m, m', at + 12);
  }

  lemma ErasedAsksNothing(m: seq<byte>)
    requires |m| >= SECTOR && forall a :: Settings(m) <= a < |m| ==> m[a] == ERASED
    ensures !Requested(m)
  {
  }

  // The sector that holds the settings' address
  lemma SettingsSector(m: seq<byte>)
    requires |m| % SECTOR == 0 && |m| >= SECTOR
    ensures Settings(m) % SECTOR == 0 && (|m| - PAGE) / SECTOR * SECTOR == Settings(m)
  {
    var q := |m| / SECTOR;
    assert |m| == q * SECTOR;
    assert |m| - PAGE == (q - 1) * SECTOR + (SECTOR - PAGE);
  }

  // The bytes from `d` on, up to `e`, are those of `mem0` from `s` on.
  ghost predicate SameAs(mem: seq<byte>, mem0: seq<byte>, d: nat, e: nat, s: nat) {
    e <= |mem| && s + e - d <= |mem0| && forall a :: d <= a < e ==> mem[a] == mem0[a - d + s]
  }

  ghost predicate Blank(programmed: seq<bool>, from: nat, to: nat) {
    to <= |programmed| && forall a :: from <= a < to ==> !programmed[a]
  }

  // One more page
  lemma PageAdded(mem: seq<byte>, mem': seq<byte>, mem0: seq<byte>, d: nat, at: nat, s: nat, page: seq<byte>)
    requires SameAs(mem, mem0, d, at, s) && d <= at && at + PAGE <= |mem'| == |mem| && s + at - d + PAGE <= |mem0|
    requires page == mem0[s + at - d..s + at - d + PAGE]
    requires forall a :: 0 <= a < |mem'| ==> mem'[a] == if at <= a < at + PAGE then page[a - at] else mem[a]
    ensures SameAs(mem', mem0, d, at + PAGE, s)
  {
    forall a | d <= a < at + PAGE
      ensures mem'[a] == mem0[a - d + s]
    {
      if a >= at {
        assert page[a - at] == mem0[s + at - d + (a - at)];
      }
    }
  }

  // How power is lost while a page is handled; `junk` is what the torn operation leaves.
  datatype Tear =
    | DuringErase(junk: seq<byte>)
    | DuringProgram(junk: seq<byte>)

  // Where power is lost in a boot.
  datatype Cut =
    | InCopy(page: nat, tear: Tear)
    | AfterCopy
    | InSettingsErase(mask: seq<byte>)

  predicate PossibleTear(page: nat, tear: Tear) {
    && |tear.junk| == (if tear.DuringErase? then SECTOR else PAGE)
    && (tear.DuringErase? ==> page % PAGES_PER_SECTOR == 0)
  }

  predicate Possible(cut: Cut) {
    match cut
    case InCopy(page, tear) => PossibleTear(page, tear)
    case AfterCopy => true
    case InSettingsErase(mask) => |mask| == SECTOR
  }

  class Boot {
    const flash: Flash
    const dst: nat   // the application image's offset in flash

    constructor (f: Flash, image: nat)
      ensures flash == f && dst == image
    {
      flash, dst := f, image;
    }

    function Pages(info: Info): nat { Ceiling(info.size, PAGE) }

    function Src(info: Info): nat
      requires info.base >= FLASH_BASE
    {
      info.base - FLASH_BASE
    }

    // A sector-aligned target, disjoint from the source, both before the settings' sector, and a page count
    // that fits the 16-bit counter.
    predicate PlacedIn(info: Info, length: nat) {
      && length >= SECTOR && dst % SECTOR == 0 && Pages(info) < 0x1_0000 && info.base >= FLASH_BASE
      && Src(info) + Pages(info) * PAGE <= length - SECTOR && dst + SectorEnd(Pages(info)) * PAGE <= length - SECTOR
      && (Src(info) + Pages(info) * PAGE <= dst || dst + SectorEnd(Pages(info)) * PAGE <= Src(info))
    }

    ghost predicate Placed(info: Info)
      reads flash
    {
      flash.Valid() && PlacedIn(info, |flash.mem|)
    }

    ghost function Image(mem: seq<byte>, info: Info): seq<byte>
      requires info.base >= FLASH_BASE && Src(info) + Pages(info) * PAGE <= |mem|
    {
      mem[Src(info)..Src(info) + Pages(info) * PAGE]
    }

    // The target's sectors are the only ones that differ from `mem0`.
    ghost predicate Elsewhere(mem0: seq<byte>, info: Info)
      reads flash
    {
      && |flash.mem| == |mem0|
      && forall a :: 0 <= a < |mem0| && !(dst <= a < dst + SectorEnd(Pages(info)) * PAGE) ==> flash.mem[a] == mem0[a]
    }

    // The first `i` pages hold the image, and the rest of the sector being filled is erased.
    ghost predicate Copied(mem0: seq<byte>, info: Info, i: nat)
      reads flash
    {
      && Placed(info) && Elsewhere(mem0, info) && i <= Pages(info)
      && SameAs(flash.mem, mem0, dst, dst + i * PAGE, Src(info))
      && Blank(flash.programmed, dst + i * PAGE, dst + SectorEnd(i) * PAGE)
    }

    lemma TargetHasPage(info: Info, i: nat)
      requires Placed(info) && i < Pages(info)
      ensures dst + SectorEnd(i + 1) * PAGE <= |flash.mem| && dst + i * PAGE + PAGE <= dst + SectorEnd(i + 1) * PAGE
      ensures SectorEnd(i + 1) <= SectorEnd(Pages(info))
      ensures Src(info) + i * PAGE + PAGE <= |flash.mem| && info.base >= FLASH_BASE && dst % SECTOR == 0
    {
      SectorEndGrows(i + 1, Pages(info));
    }

    // The page after the first `i` may be programmed.
    ghost predicate PageReady(mem0: seq<byte>, info: Info, i: nat)
      reads flash
    {
      && Placed(info) && Elsewhere(mem0, info) && i < Pages(info)
      && SameAs(flash.mem, mem0, dst, dst + i * PAGE, Src(info))
      && Blank(flash.programmed, dst + i * PAGE, dst + SectorEnd(i + 1) * PAGE)
    }

    // At the first page of a sector the sector is erased.
    method Prepare(info: Info, i: nat, ghost mem0: seq<byte>)
      requires Copied(mem0, info, i) && i < Pages(info)
      modifies flash
      ensures PageReady(mem0, info, i)
    {
      TargetHasPage(info, i);
      SectorEndNext(i);
      SectorStart(dst, i);
      hide SectorEnd, Ceiling;
      if i % PAGES_PER_SECTOR == 0 {
        flash.SectorErase(dst + i * PAGE);
      }
    }

    // One turn of fw_copy's loop.
    method CopyPage(info: Info, i: nat, ghost mem0: seq<byte>)
      requires Copied(mem0, info, i) && i < Pages(info)
      modifies flash
      ensures Copied(mem0, info, i + 1)
    {
      Prepare(info, i, mem0);
      TargetHasPage(info, i);
      var page := flash.Read(Src(info) + i * PAGE, PAGE);
      SourcePage(info, i, mem0);
      ProgramPage(info, i, page, mem0);
    }

    lemma SourcePage(info: Info, i: nat, mem0: seq<byte>)
      requires PageReady(mem0, info, i) && Src(info) + i * PAGE + PAGE <= |mem0|
      ensures flash.Read(Src(info) + i * PAGE, PAGE) == mem0[Src(info) + i * PAGE..Src(info) + i * PAGE + PAGE]
    {
      TargetHasPage(info, i);
      hide SectorEnd, Ceiling;
    }

    method ProgramPage(info: Info, i: nat, page: seq<byte>, ghost mem0: seq<byte>)
      requires PageReady(mem0, info, i) && Src(info) + i * PAGE + PAGE <= |mem0|
      requires page == mem0[Src(info) + i * PAGE..Src(info) + i * PAGE + PAGE]
      modifies flash
      ensures Copied(mem0, info, i + 1)
    {
      TargetHasPage(info, i);
      hide SectorEnd, Ceiling, SameAs, PlacedIn;
      SectorStart(dst, i);
      ghost var mem, at := flash.mem, dst + i * PAGE;
      assert dst + (i + 1) * PAGE == at + PAGE;
      flash.PageProgram(dst + i * PAGE, page);
      PageAdded(mem, flash.mem, mem0, dst, at, Src(info), page);
    }

    // fw_copy
    method FwCopy(info: Info)
      requires Placed(info)
      modifies flash
      ensures Placed(info) && Elsewhere(old(flash.mem), info)
      ensures flash.mem[dst..dst + Pages(info) * PAGE] == Image(old(flash.mem), info)
      ensures dst + info.size <= |flash.mem| && Src(info) + info.size <= |old(flash.mem)|
      ensures flash.mem[dst..dst + info.size] == old(flash.mem)[Src(info)..Src(info) + info.size]
    {
      ghost var mem0 := flash.mem;
      hide SectorEnd, Ceiling;
      SectorEndNext(0);
      var i := 0;
      while i < Pages(info)
        invariant Copied(mem0, info, i)
      {
        CopyPage(info, i, mem0);
        i := i + 1;
      }
      assert flash.mem[dst..dst + Pages(info) * PAGE] == Image(mem0, info);
      WholeImage(mem0, info);
    }

    // The pages hold all of the image's bytes.
    lemma WholeImage(mem0: seq<byte>, info: Info)
      requires |mem0| == |flash.mem| && Placed(info) && flash.mem[dst..dst + Pages(info) * PAGE] == Image(mem0, info)
      ensures dst + info.size <= |flash.mem| && Src(info) + info.size <= |mem0|
      ensures flash.mem[dst..dst + info.size] == mem0[Src(info)..Src(info) + info.size]
    {
      hide Ceiling, SectorEnd;
      PagesCover(info.size);
      var n := Pages(info) * PAGE;
      assert flash.mem[dst..dst + info.size] == flash.mem[dst..dst + n][..info.size];
      assert mem0[Src(info)..Src(info) + info.size] == Image(mem0, info)[..info.size];
    }

    // fw_copy up to a loss of power at page `page`
    method FwCopyCut(info: Info, page: nat, tear: Tear)
      requires Placed(info) && page < Pages(info) && PossibleTear(page, tear)
      modifies flash
      ensures Placed(info) && Elsewhere(old(flash.mem), info)
    {
      ghost var mem0 := flash.mem;
      hide SectorEnd, Ceiling;
      SectorEndNext(0);
      var i := 0;
      while i < page
        invariant Copied(mem0, info, i) && i <= page
      {
        CopyPage(info, i, mem0);
        i := i + 1;
      }
      TargetHasPage(info, page);
      SectorEndNext(page);
      if tear.DuringErase? {
        flash.Torn(dst + page * PAGE, SECTOR, tear.junk);
      } else {
        Prepare(info, page, mem0);
        flash.Torn(dst + page * PAGE, PAGE, tear.junk);
      }
    }

    // ota_copy_info_get
    method OtaCopyInfoGet() returns (asked: bool, info: Info)
      requires |flash.mem| >= SECTOR
      ensures asked == Requested(flash.mem) && info == Request(flash.mem)
    {
      var at := |flash.mem| - PAGE + 0x10;
      var words := flash.Read(at, 16);
      WordsThere(flash.mem, words);
      hide Word;
      info := Info(Word(words, 0), Word(words, 4));
      asked := info.base == WORD_MAX - Word(words, 8) && info.size == WORD_MAX - Word(words, 12);
    }

    lemma WordsThere(mem: seq<byte>, words: seq<byte>)
      requires |mem| >= SECTOR && words == mem[StatusOffset(mem)..StatusOffset(mem) + 16]
      ensures forall i :: i in {0, 4, 8, 12} ==> Word(words, i) == Word(mem, StatusOffset(mem) + i)
    {
    }

    // ota_settings_erase: the sector that holds the settings is erased.
    method OtaSettingsErase()
      requires flash.Valid() && |flash.mem| >= SECTOR
      modifies flash
      ensures flash.Valid() && |flash.mem| == |old(flash.mem)| && !Requested(flash.mem)
      ensures forall a :: 0 <= a < Settings(flash.mem) ==> flash.mem[a] == old(flash.mem)[a]
    {
      SettingsSector(flash.mem);
      flash.SectorErase((|flash.mem| - PAGE) / SECTOR * SECTOR);
      ErasedAsksNothing(flash.mem);
    }

    // The same erase, cut short
    method OtaSettingsEraseCut(mask: seq<byte>)
      requires flash.Valid() && |flash.mem| >= SECTOR && |mask| == SECTOR
      modifies flash
      ensures flash.Valid() && Raised(old(flash.mem), flash.mem)
      ensures forall a :: 0 <= a < Settings(flash.mem) ==> flash.mem[a] == old(flash.mem)[a]
    {
      var at := Settings(flash.mem);
      flash.Torn(at, SECTOR, CutErase(flash.Read(at, SECTOR), mask));
    }

    // ---- Boots ----

    // The image that was meant when the flash held `mem0` is in place, and nothing but the target's and the
    // settings' sectors differs.
    ghost predicate Installed(mem0: seq<byte>)
      requires |mem0| >= SECTOR
      reads flash
    {
      var info := Request(mem0);
      && Placed(info) && Outside(mem0, info)
      && flash.mem[dst..dst + Pages(info) * PAGE] == Image(mem0, info)
    }

    ghost predicate Outside(mem0: seq<byte>, info: Info)
      requires |mem0| >= SECTOR
      reads flash
    {
      && |flash.mem| == |mem0|
      && forall a :: 0 <= a < Settings(mem0) && !(dst <= a < dst + SectorEnd(Pages(info)) * PAGE) ==> flash.mem[a] == mem0[a]
    }

    // What every boot keeps: the flash holds the request that was made, and the image can be copied anew; or
    // it holds none, and the image is in place.
    ghost predicate Recoverable(mem0: seq<byte>)
      requires |mem0| >= SECTOR
      reads flash
    {
      var info := Request(mem0);
      && Placed(info) && Outside(mem0, info)
      && if Requested(flash.mem) then Request(flash.mem) == info else Installed(mem0)
    }

    // boot_ram_start: the copy that the settings ask for, and the settings erased after it
    method Start(ghost mem0: seq<byte>)
      requires |mem0| >= SECTOR && Recoverable(mem0)
      modifies flash
      ensures Installed(mem0) && !Requested(flash.mem)
    {
      hide Requested, Request, SectorEnd, Ceiling;
      var asked, info := OtaCopyInfoGet();
      if asked {
        SameImage(mem0, info);
        FwCopy(info);
        OtaSettingsErase();
      }
    }

    // A boot that is cut short
    method StartCut(cut: Cut, ghost mem0: seq<byte>)
      requires |mem0| >= SECTOR && Recoverable(mem0) && Possible(cut)
      modifies flash
      ensures Recoverable(mem0)
    {
      hide Requested, Request, SectorEnd, Ceiling;
      var asked, info := OtaCopyInfoGet();
      if !asked {
        return;
      }
      SameImage(mem0, info);
      ghost var mem1 := flash.mem;
      match cut
      case InCopy(page, tear) =>
        if page < Pages(info) {
          FwCopyCut(info, page, tear);
          SameRequest(mem1, flash.mem);
        }
      case AfterCopy =>
        FwCopy(info);
        SameRequest(mem1, flash.mem);
      case InSettingsErase(mask) =>
        FwCopy(info);
        SameRequest(mem1, flash.mem);
        ghost var mem2 := flash.mem;
        OtaSettingsEraseCut(mask);
        RequestSurvivesOrGoes(mem2, flash.mem);
    }

    // The source is not in the target's sectors, so it is still the image.
    lemma SameImage(mem0: seq<byte>, info: Info)
      requires |mem0| >= SECTOR && Placed(info) && Outside(mem0, info)
      ensures Image(flash.mem, info) == Image(mem0, info)
    {
    }

    // However often and wherever power is lost, the next whole boot leaves the image that was first meant.
    method BootsAndBoots(cuts: seq<Cut>)
      requires |flash.mem| >= SECTOR && Requested(flash.mem) && Placed(Request(flash.mem))
      requires forall c :: c in cuts ==> Possible(c)
      modifies flash
      ensures |flash.mem| == |old(flash.mem)| && Installed(old(flash.mem)) && !Requested(flash.mem)
      ensures var info := Request(old(flash.mem));
              && dst + info.size <= |flash.mem| && Src(info) + info.size <= |flash.mem|
              && flash.mem[dst..dst + info.size] == old(flash.mem)[Src(info)..Src(info) + info.size]
    {
      hide Requested, Request;
      ghost var mem0 := flash.mem;
      for i := 0 to |cuts|
        invariant Recoverable(mem0)
      {
        StartCut(cuts[i], mem0);
      }
      Start(mem0);
      WholeImage(mem0, Request(mem0));
    }
  }
}
