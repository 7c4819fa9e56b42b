// tinyfs_init, and what a clean mount restores (dev/module/tinyfs/tinyfs.c:586-593, 763-803).
module Mounting {
  import opened Nor
  import opened WriteBehind
  import opened Ring
  import opened Layout
  import opened LogWriter
  import opened Codec
  import opened MountWalk
  import opened LogReplay
  import opened Nodes
  import opened Table
  import opened Index
  import opened Collector
  import opened Tree
  import opened Subtree
  import opened Building
  import opened Discovery
  import opened Loading
  import opened FileSystem

  // The flash holds a log that was written through: its sections, nodes and meaning.
  ghost predicate Image(flash: Flash, h: History, lo: nat, items: Items, live: Live)
    reads flash
  {
    && flash.Valid() && Holds(Medium(flash.mem, flash.programmed), h, lo)
    && Wf(h) && lo <= |h| < lo + N && (if h == [] then lo == 0 else lo < |h| && Discoverable(lo, |h| - lo))
    && TailOffset(h) % PAGE == 0 && Free(h, lo) > C - PAGE + 1
    && LogOk(h, lo, items, live, {}) && Closed(EntriesOf(live)) && Meaningful(live, 0xffff)
  }

  // An erased flash is the image of the empty log.
  lemma BlankIsImage(flash: Flash)
    requires flash.Valid() && SlotBase(N) <= |flash.mem|
    requires forall a :: 0 <= a < |flash.mem| ==> flash.mem[a] == ERASED && !flash.programmed[a]
    ensures Image(flash, [], 0, [], map[])
  {
    var m := Medium(flash.mem, flash.programmed);
    forall k, off | 0 <= k < N && 0 <= off < S
      ensures At(k, off) < |m.view| && m.view[At(k, off)] == ByteAt([], k, off)
    {
      SlotBasesApart(Phys(k), N);
    }
    FreeWhenFewInUse([], 0);
    EmptyLog();
  }

  lemma EmptyLog()
    ensures LogOk([], 0, [], map[], {}) && TailOffset([]) % PAGE == 0
    ensures Closed(EntriesOf(map[])) && Meaningful(map[], 0xffff)
  {
    PageBelow(0);
    forall n | 0 <= n <= |Flat([], 0)|
      ensures |Replay(Flat([], 0)[..n])| == 0
    {
    }
  }

  // The pieces of the ring that neither hold the log nor its tail's rest are free: what mount computes.
  lemma FreeRecomputed(h: History, lo: nat)
    requires lo < |h| <= lo + N
    ensures var head, tail := Phys(lo), Phys(|h| - 1);
            Free(h, lo) == S - TailOffset(h) + C * (if tail >= head then N - 1 - tail + head else head - tail - 1)
  {
    PhysShift(lo, |h| - 1 - lo);
    var m := N + lo - |h|;
    assert m == if Phys(|h| - 1) >= Phys(lo) then N - 1 - Phys(|h| - 1) + Phys(lo) else Phys(lo) - Phys(|h| - 1) - 1;
  }

  // ---- tinyfs_init, step by step ----

  // The log's memory, its fields not yet recovered.
  ghost predicate Unmounted(log: LogStore, items: Items, live: Live)
    reads log`h, log`lo, log.cache, log.cache.buf, log.cache.nvm
  {
    && Image(log.cache.nvm, log.h, log.lo, items, live)
    && log.Readable() && log.cache.idx == 0
  }

  lemma ReadableImage(log: LogStore, items: Items, live: Live)
    requires Image(log.cache.nvm, log.h, log.lo, items, live) && log.cache.idx == 0 && log.cache.buf.Length == PAGE
    ensures Unmounted(log, items, live)
  {
    assert log.cache.View() == log.cache.nvm.mem;
  }

  lemma SuffixOfLog(h: History, lo: nat, items: Items, live: Live)
    requires LogOk(h, lo, items, live, {})
    ensures live == Replay(Flat(items, lo)) && PoolFits(Flat(items, lo), POOL - 1) && |live| <= POOL - 1 && Walks(h, items)
  {
    hide Walks, Placed, Replay;
    assert Replay(Flat(items, lo)) - {} == Replay(Flat(items, lo));
    FlatSplits(items, 0, lo);
    SuffixFits(Flat(items[..lo], 0), Flat(items, lo), POOL - 1);
    assert Flat(items, lo)[..|Flat(items, lo)|] == Flat(items, lo);
  }

  lemma MountableImage(log: LogStore, items: Items, live: Live)
    requires Unmounted(log, items, live) && log.h != []
    ensures Mountable(log, items)
  {
    hide Walks, PoolFits, Flat, Replay, Placed, LogOk, LogStore.Readable;
    SuffixOfLog(log.h, log.lo, items, live);
  }

  lemma HeadersAreRun(log: LogStore, heads: seq<HeadData>, valid: seq<bool>)
    requires Wf(log.h) && log.lo < |log.h| <= log.lo + N && |heads| == |valid| == N
    requires forall slot :: 0 <= slot < N ==> (valid[slot] <==> InSlot(log.lo, slot) < |log.h|)
    requires forall slot :: 0 <= slot < N && valid[slot] ==>
               var k := InSlot(log.lo, slot);
               HEAD <= |log.h[k]| && heads[slot] == HeadData(LoopCount(k), FirstNode(log.h, k))
    ensures HeadsRead(log, heads, valid)
  {
    hide LoopCount, FirstNode;
    forall k | log.lo <= k < log.lo + N
      ensures InSlot(log.lo, Phys(k)) == k
    {
      SlotOf(log.lo, k);
    }
  }

  lemma SlotOf(lo: nat, k: nat)
    requires lo <= k < lo + N
    ensures InSlot(lo, Phys(k)) == k
  {
    PhysShift(lo, k - lo);
  }

  // The first node of the pool becomes the root (root_dir_init).
  method RootInit(tab: NodeTable)
    requires tab.Threaded() && tab.Counted() && tab.pool.Held() == {} && tab.lst == seq(N, _ => [])
    requires tab.pool.allocatable != [] && tab.pool.allocatable[0] == tab.pool.Elem(ROOT)
    modifies tab`nodes, tab.pool, tab.pool.refCnt
    ensures Parsed(tab, map[], map[], map[])
  {
    var root, ok := tab.NodeAlloc();
    assert ok && root == ROOT;
    ghost var a := tab.nodes;
    tab.nodes := tab.nodes[root := Node(0xffff, 0, NIL, NIL, NIL, NIL, 0, 0)];
    ListsIgnore(a, tab.list, tab.lst, ROOT, tab.nodes[ROOT]);
    hide ListsOk;
    assert IndexOk(tab.nodes, tab.lst, map[], map[], map[]);
  }

  // The fields of the log that the headers tell.
  method RecoverEnds(log: LogStore, heads: seq<HeadData>, valid: seq<bool>, ghost items: Items, ghost live: Live)
    requires Unmounted(log, items, live) && log.h != [] && HeadsRead(log, heads, valid)
    modifies log`head_section, log`tail_section, log`tail_count
    ensures Unmounted(log, items, live) && HeadsRead(log, heads, valid)
    ensures log.head_section == Phys(log.lo) && log.tail_section == Phys(|log.h| - 1) && log.tail_count == |log.h| % 0x1_0000
  {
    hide Unmounted, Discoverable, Phys;
    ghost var lo, n := log.lo, |log.h| - log.lo;
    RunIsDiscoverable(log, items, live);
    log.head_section, log.tail_section, log.tail_count := FindHeadTailSection(heads, valid, lo, n);
    assert heads[Phys(lo + n - 1)].loopCount == LoopCount(lo + n - 1);
  }

  lemma RunIsDiscoverable(log: LogStore, items: Items, live: Live)
    requires Unmounted(log, items, live) && log.h != []
    ensures log.lo < |log.h| <= log.lo + N && Discoverable(log.lo, |log.h| - log.lo)
  {
    hide LogOk, LogStore.Readable, Holds, Meaningful, Closed, Discoverable;
  }

  lemma RecoveredIsValid(log: LogStore, items: Items, live: Live)
    requires Unmounted(log, items, live) && log.h != [] && log.tail_available_offset == TailOffset(log.h)
    requires log.head_section == Phys(log.lo) && log.tail_section == Phys(|log.h| - 1) && log.tail_count == |log.h| % 0x1_0000
    requires log.free_bytes == Free(log.h, log.lo)
    ensures log.Valid()
  {
    hide LogOk, LogStore.Readable, Holds, Meaningful, Closed, Discoverable, Free, Phys;
  }

  // The fields that the walk tells.
  method RecoverSpace(log: LogStore, offset: nat, ghost items: Items, ghost live: Live)
    requires Unmounted(log, items, live) && log.h != [] && offset == TailOffset(log.h)
    requires log.head_section == Phys(log.lo) && log.tail_section == Phys(|log.h| - 1) && log.tail_count == |log.h| % 0x1_0000
    modifies log`tail_available_offset, log`free_bytes
    ensures log.Valid() && Unmounted(log, items, live)
  {
    hide Unmounted, Free, Phys, LogStore.Valid;
    RunIsDiscoverable(log, items, live);
    FreeRecomputed(log.h, log.lo);
    log.tail_available_offset := offset;
    var spare := if log.tail_section >= log.head_section then N - 1 - log.tail_section + log.head_section
                 else log.head_section - log.tail_section - 1;
    log.free_bytes := S - log.tail_available_offset + C * spare;
    RecoveredIsValid(log, items, live);
  }

  lemma MeansMounted(live: Live, s: seq<Item>, max: nat)
    requires Meaningful(live, 0xffff) && live == Replay(s) && max == MaxDirId(s)
    ensures Meaningful(live, max)
  {
    forall k | k in live && live[k].e.DirAdd?
      ensures live[k].e.id <= max
    {
      MaxDirIdCovers(s, k);
    }
  }

  // Everything but the tree.
  ghost predicate LoggedIn(fs: TinyFs, items: Items, live: Live)
    reads fs, fs.st, fs.st.log, fs.st.log.cache, fs.st.log.cache.buf, fs.st.log.cache.nvm
    reads fs.st.tab, fs.st.tab.pool, fs.st.tab.pool.refCnt
  {
    && Unmounted(fs.st.log, items, live) && fs.st.log.Valid() && fs.Apart()
    && fs.st.items == items && fs.st.live == live && fs.st.skip == {}
    && fs.st.top == fs.dir_id_max == MaxDirId(Flat(items, fs.st.log.lo))
    && Parsed(fs.st.tab, fs.st.who, fs.st.key, live) && Meaningful(live, fs.dir_id_max)
  }

  // The log is not empty: its ends, nodes and free space are found.
  method LoadLog(fs: TinyFs, heads: seq<HeadData>, valid: seq<bool>, ghost items: Items, ghost live: Live)
    requires Unmounted(fs.st.log, items, live) && fs.st.log.h != [] && HeadsRead(fs.st.log, heads, valid) && fs.Apart()
    requires Parsed(fs.st.tab, map[], map[], map[])
    modifies fs, fs.st, fs.st.log, fs.st.tab, fs.st.tab.pool, fs.st.tab.pool.refCnt
    ensures LoggedIn(fs, items, live)
    ensures fs.st.log.h == old(fs.st.log.h) && fs.st.log.lo == old(fs.st.log.lo)
  {
    hide Unmounted, Mountable, HeadsRead, LogStore.Valid, Parsed, Replay, MaxDirId, Flat, Meaningful, Phys, Closed;
    MountableImage(fs.st.log, items, live);
    MeaningOf(fs.st.log, items, live);
    ghost var lo := fs.st.log.lo;
    RecoverEnds(fs.st.log, heads, valid, items, live);
    var offset, max;
    ghost var who, key;
    offset, max, who, key := NodesInfoLoad(fs.st.log, fs.st.tab, heads, valid, items);
    RecoverSpace(fs.st.log, offset, items, live);
    MeansMounted(live, Flat(items, lo), max);
    hide LoggedIn, Joined;
    fs.dir_id_max := max;
    Remember(fs.st, items, live, who, key, max);
    LoggedInIs(fs, items, live);
  }

  // What the store stands for, as the replay has left it.
  ghost method Remember(st: Store, items: Items, live: Live, who: map<Key, nat>, key: map<nat, Key>, top: nat)
    modifies st
    ensures st.items == items && st.live == live && st.skip == {} && st.who == who && st.key == key && st.top == top
  {
    st.items, st.live, st.skip, st.who, st.key, st.top := items, live, {}, who, key, top;
  }

  lemma LoggedInIs(fs: TinyFs, items: Items, live: Live)
    requires Unmounted(fs.st.log, items, live) && fs.st.log.Valid() && fs.Apart()
    requires fs.st.items == items && fs.st.live == live && fs.st.skip == {}
    requires fs.st.top == fs.dir_id_max == MaxDirId(Flat(items, fs.st.log.lo))
    requires Parsed(fs.st.tab, fs.st.who, fs.st.key, live) && Meaningful(live, fs.dir_id_max)
    ensures LoggedIn(fs, items, live)
  {
    hide Unmounted, LogStore.Valid, Parsed, MaxDirId, Flat, Meaningful;
  }

  lemma MeaningOf(log: LogStore, items: Items, live: Live)
    requires Unmounted(log, items, live)
    ensures Meaningful(live, 0xffff) && live == Replay(Flat(items, log.lo)) && Closed(EntriesOf(live))
  {
    hide LogOk, LogStore.Readable, Holds, Meaningful, Closed;
    SuffixOfLog(log.h, log.lo, items, live);
  }

  // The tree is built as well.
  ghost predicate Rooted(fs: TinyFs, items: Items, live: Live)
    reads fs, fs.st, fs.st.log, fs.st.log.cache, fs.st.log.cache.buf, fs.st.log.cache.nvm
    reads fs.st.tab, fs.st.tab.pool, fs.st.tab.pool.refCnt
  {
    && Unmounted(fs.st.log, items, live) && fs.st.log.Valid() && fs.Apart()
    && fs.st.items == items && fs.st.live == live && fs.st.skip == {} && Meaningful(live, fs.dir_id_max)
    && fs.st.top == fs.dir_id_max == MaxDirId(Flat(items, fs.st.log.lo))
    && fs.st.tab.Threaded() && IndexOk(fs.st.tab.nodes, fs.st.tab.lst, fs.st.who, fs.st.key, live)
    && Pooled(fs.st.tab, fs.st.key.Keys)
    && Parented(fs.st.tab.nodes, fs.st.key, live) && TreeOk(fs.st.tab.nodes, fs.st.key.Keys, fs.kids)
  }

  // With the tree, everything is in place.
  lemma MountedIsValid(fs: TinyFs, items: Items, live: Live)
    requires Rooted(fs, items, live)
    ensures fs.Valid()
  {
    StoreIsValid(fs, items, live);
    TreeIsSound(fs, items, live);
    RoomyImage(fs.st.log, items, live);
    hide Unmounted, LogStore.Valid, Parsed, Meaningful, Parented, TreeOk, Store.Valid, TinyFs.Sound;
    PoolIsHoused(fs, items, live);
  }

  lemma StoreIsValid(fs: TinyFs, items: Items, live: Live)
    requires Rooted(fs, items, live)
    ensures fs.st.Valid()
  {
    LogOfImage(fs.st.log, items, live);
    MaxDirIdIsTop(Flat(items, fs.st.log.lo));
    hide Unmounted, LogStore.Valid, Meaningful, Pooled, IndexOk, ListsOk, Loaded, LogOk, IdsBelow, Flat, MaxDirId;
    fs.st.Whole();
  }

  lemma LogOfImage(log: LogStore, items: Items, live: Live)
    requires Unmounted(log, items, live)
    ensures LogOk(log.h, log.lo, items, live, {}) && |live| <= POOL - 1
  {
    hide LogOk, LogStore.Readable, Holds, Meaningful, Closed, Discoverable;
    SuffixOfLog(log.h, log.lo, items, live);
  }

  lemma TreeIsSound(fs: TinyFs, items: Items, live: Live)
    requires Rooted(fs, items, live)
    ensures fs.Sound()
  {
    hide Unmounted, LogStore.Valid, Pooled, IndexOk, ListsOk, Loaded, Meaningful, Parented, TreeOk;
  }

  lemma PoolIsHoused(fs: TinyFs, items: Items, live: Live)
    requires Rooted(fs, items, live)
    ensures fs.Housed() && fs.Apart()
  {
    hide Unmounted, LogStore.Valid, Replaying, Meaningful;
  }

  lemma RoomyImage(log: LogStore, items: Items, live: Live)
    requires Unmounted(log, items, live) && log.Valid()
    ensures log.tail_available_offset % PAGE == 0 && log.free_bytes > C - PAGE + 1 && |log.h| < log.lo + N
  {
    hide LogOk, LogStore.Readable, Holds, Meaningful, Closed, Discoverable;
  }

  // dir_tree_build on the loaded nodes
  method BuildTree(fs: TinyFs, ghost items: Items, ghost live: Live)
    requires LoggedIn(fs, items, live)
    modifies fs`kids, fs.st.tab`nodes
    ensures Rooted(fs, items, live)
  {
    hide Unmounted, LogStore.Valid, Meaningful, Pooled, Closed, IndexOk, ListsOk, Loaded, TreeOk, Parented;
    MeaningOf(fs.st.log, items, live);
    fs.kids := DirTreeBuild(fs.st.tab, fs.st.who, fs.st.key, live);
  }

  // all_section_empty
  method AllSectionEmpty(valid: seq<bool>) returns (empty: bool)
    ensures empty <==> forall i :: 0 <= i < |valid| ==> !valid[i]
  {
    var i := 0;
    while i < |valid|
      invariant i <= |valid| && forall j :: 0 <= j < i ==> !valid[j]
    {
      if valid[i] {
        return false;
      }
      i := i + 1;
    }
    empty := true;
  }

  // The log is empty: the ring starts afresh.
  method StartLog(log: LogStore, ghost items: Items, ghost live: Live)
    requires Unmounted(log, items, live) && log.h == [] && log.lo == 0
    modifies log`head_section, log`tail_section, log`tail_available_offset, log`tail_count, log`free_bytes
    ensures log.Valid() && Unmounted(log, items, live)
  {
    hide Unmounted, LogStore.Valid;
    log.head_section, log.tail_section, log.tail_available_offset, log.tail_count := 0, Prev(0), S, 0;
    log.free_bytes := N * (S - HEAD);
    EmptyIsValid(log, items, live);
  }

  method StartAfresh(fs: TinyFs, ghost items: Items, ghost live: Live)
    requires Unmounted(fs.st.log, items, live) && fs.st.log.h == [] && fs.Apart() && Parsed(fs.st.tab, map[], map[], map[])
    modifies fs, fs.st, fs.st.log
    ensures Rooted(fs, items, live) && fs.st.log.h == [] && fs.st.log.lo == old(fs.st.log.lo) && fs.dir_id_max == 0
  {
    hide Unmounted, Parsed, LogStore.Valid, TreeOk, Parented, IndexOk, ListsOk, Pooled, Meaningful;
    EmptyImage(fs.st.log, items, live);
    EmptyTree(fs.st.tab);
    fs.dir_id_max := 0;
    fs.kids := map[ROOT := []];
    fs.st.items, fs.st.live, fs.st.skip, fs.st.who, fs.st.key, fs.st.top := items, live, {}, map[], map[], 0;
    StartLog(fs.st.log, items, live);
    assert fs.st.key.Keys == {};
  }

  lemma EmptyImage(log: LogStore, items: Items, live: Live)
    requires Unmounted(log, items, live) && log.h == []
    ensures log.lo == 0 && live == map[] && Meaningful(live, 0) && MaxDirId(Flat(items, log.lo)) == 0
  {
    hide LogStore.Readable, Holds, Meaningful, Closed, Discoverable;
    SuffixOfLog(log.h, log.lo, items, live);
    assert Flat(items, 0) == [];
    assert Meaningful(map[], 0) by {
      NothingMeans();
    }
  }

  lemma NothingMeans()
    ensures Meaningful(map[], 0)
  {
  }

  lemma EmptyIsValid(log: LogStore, items: Items, live: Live)
    requires Unmounted(log, items, live) && log.h == [] && log.lo == 0
    requires log.head_section == 0 && log.tail_section == N - 1 && log.tail_available_offset == S && log.tail_count == 0
    requires log.free_bytes == N * (S - HEAD)
    ensures log.Valid()
  {
    hide LogOk, LogStore.Readable, Holds, Meaningful, Closed, Discoverable;
    assert Free([], 0) == C * N;
  }

  lemma EmptyTree(tab: NodeTable)
    requires Parsed(tab, map[], map[], map[])
    ensures tab.Threaded() && IndexOk(tab.nodes, tab.lst, map[], map[], map[]) && Pooled(tab, {})
    ensures Parented(tab.nodes, map[], map[]) && TreeOk(tab.nodes, {}, map[ROOT := []])
  {
    hide ListsOk;
    assert tab.nodes[ROOT].IsDir();
  }

  // tinyfs_init on memory as it is at power-up: whatever log the flash holds is what the file system means.
  method TinyfsInit(fs: TinyFs, ghost h: History, ghost lo: nat, ghost items: Items, ghost live: Live)
    requires fs.PoweredUp() && Image(fs.st.log.cache.nvm, h, lo, items, live)
    modifies fs, fs.st, fs.st.log, fs.st.tab, fs.st.tab.pool, fs.st.tab.pool.refCnt
    ensures fs.Valid() && fs.Files() == EntriesOf(live)
    ensures fs.st.log.h == h && fs.st.log.lo == lo && fs.st.items == items && fs.st.live == live
    ensures fs.dir_id_max == MaxDirId(Flat(items, lo))
  {
    hide Image, Unmounted, ListsOk, Parsed, TinyFs.Valid;
    fs.st.log.h, fs.st.log.lo := h, lo;
    ReadableImage(fs.st.log, items, live);
    RootInit(fs.st.tab);
    MountFrom(fs, items, live);
  }

  // The rest of tinyfs_init, once the root is there.
  method MountFrom(fs: TinyFs, ghost items: Items, ghost live: Live)
    requires Unmounted(fs.st.log, items, live) && fs.Apart() && Parsed(fs.st.tab, map[], map[], map[])
    modifies fs, fs.st, fs.st.log, fs.st.tab, fs.st.tab.pool, fs.st.tab.pool.refCnt
    ensures fs.Valid() && fs.st.log.h == old(fs.st.log.h) && fs.st.log.lo == old(fs.st.log.lo)
    ensures fs.st.items == items && fs.st.live == live && fs.dir_id_max == MaxDirId(Flat(items, fs.st.log.lo))
  {
    hide MaxDirId, Flat;
    hide Unmounted, Parsed, Rooted, LoggedIn, Walks, HeadsRead, LogStore.Readable, TinyFs.Valid;
    WalksOfImage(fs.st.log, items, live);
    var heads, valid := SectionHeadReadAll(fs.st.log, items);
    var empty := AllSectionEmpty(valid);
    SlotOf(fs.st.log.lo, fs.st.log.lo);
    if !empty {
      HeadersAreRun(fs.st.log, heads, valid);
      LoadLog(fs, heads, valid, items, live);
      BuildTree(fs, items, live);
    } else {
      StartAfresh(fs, items, live);
    }
    RootedIs(fs, items, live);
    MountedIsValid(fs, items, live);
  }

  lemma RootedIs(fs: TinyFs, items: Items, live: Live)
    requires Rooted(fs, items, live)
    ensures fs.st.items == items && fs.st.live == live && fs.dir_id_max == MaxDirId(Flat(items, fs.st.log.lo))
  {
  }

  lemma WalksOfImage(log: LogStore, items: Items, live: Live)
    requires Unmounted(log, items, live)
    ensures log.Readable() && log.cache.idx == 0 && Walks(log.h, items) && Wf(log.h)
    ensures log.h == [] ==> log.lo == 0
    ensures log.h != [] ==> log.lo < |log.h| <= log.lo + N
  {
    hide LogStore.Readable, Holds, Meaningful, Closed, Discoverable, LogOk, Walks;
    SuffixOfLog(log.h, log.lo, items, live);
  }

  // ---- A clean mount restores the store ----

  ghost predicate MayRemount(log: LogStore)
    reads log`h, log`lo
  {
    log.h != [] ==> log.lo < |log.h| <= log.lo + N && Discoverable(log.lo, |log.h| - log.lo)
  }

  // A ring of three sections, the one that is shipped, can be mounted at any time.
  lemma ThreeSectionsMount(fs: TinyFs)
    requires fs.Valid() && N == 3
    ensures MayRemount(fs.st.log)
  {
    hide TinyFs.Valid, LogStore.Valid, Wf;
    RoomLeft(fs);
    fs.st.log.IsWf();
    if fs.st.log.h != [] {
      ThreeAreNeverMisled(fs.st.log.lo, |fs.st.log.h| - fs.st.log.lo);
    }
  }

  // So can any ring until 0xffff sections have been opened, for the count has not wrapped.
  lemma EarlyLogsMount(fs: TinyFs)
    requires fs.Valid() && |fs.st.log.h| <= 0xffff
    ensures MayRemount(fs.st.log)
  {
    hide TinyFs.Valid, LogStore.Valid, Wf, Discoverable;
    RoomLeft(fs);
    fs.st.log.IsWf();
    if fs.st.log.h != [] {
      NoWrapIsDiscoverable(fs.st.log.lo, |fs.st.log.h| - fs.st.log.lo);
    }
  }

  // After a write-through the flash alone holds everything.
  lemma LeavesImage(fs: TinyFs)
    requires fs.Valid() && fs.st.log.cache.idx == 0 && TailOffset(fs.st.log.h) % PAGE == 0 && MayRemount(fs.st.log)
    requires fs.st.log.cache.View() == fs.st.log.cache.nvm.mem
    ensures Image(fs.st.log.cache.nvm, fs.st.log.h, fs.st.log.lo, fs.st.items, fs.st.live)
  {
    hide LogOk, Holds, Discoverable, Closed, Meaningful, Joined, LogStore.Valid, Store.Valid, TinyFs.Valid, Wf, Flash.Valid, Free;
    MeaningLeft(fs);
    RoomLeft(fs);
    LogLeft(fs.st.log);
  }

  lemma MeaningLeft(fs: TinyFs)
    requires fs.Valid()
    ensures Closed(EntriesOf(fs.st.live)) && Meaningful(fs.st.live, 0xffff)
    ensures LogOk(fs.st.log.h, fs.st.log.lo, fs.st.items, fs.st.live, {})
  {
    hide LogOk, LogStore.Valid, IndexOk, TreeOk, Parented, ListsOk, Closed, TinyFs.Housed;
    fs.st.Parts();
    TreeCloses(fs.st.tab.nodes, fs.st.tab.lst, fs.st.who, fs.st.key, fs.st.live, fs.kids, fs.dir_id_max);
  }

  lemma LogLeft(log: LogStore)
    requires log.Valid() && log.cache.View() == log.cache.nvm.mem
    ensures var flash := log.cache.nvm;
            && flash.Valid() && Holds(Medium(flash.mem, flash.programmed), log.h, log.lo)
            && Wf(log.h) && log.lo <= |log.h| <= log.lo + N && (log.h == [] ==> log.lo == 0)
            && log.free_bytes == Free(log.h, log.lo)
  {
    hide Holds, Wf, Buffered;
  }

  lemma RoomLeft(fs: TinyFs)
    requires fs.Valid()
    ensures fs.st.log.Valid() && fs.st.log.free_bytes > C - PAGE + 1 && |fs.st.log.h| < fs.st.log.lo + N
  {
    hide LogOk, IndexOk, TreeOk, Parented, ListsOk, TinyFs.Housed, TinyFs.Sound, LogStore.Valid;
  }

  // tinyfs_write_through, a power cycle and tinyfs_init on the same flash.
  method Remount(fs: TinyFs) returns (again: TinyFs)
    requires fs.Valid() && MayRemount(fs.st.log)
    modifies fs.st.log, fs.st.log.cache, fs.st.log.cache.buf, fs.st.log.cache.nvm
    ensures fs.Valid() && again.Valid() && fresh(again.Repr()) && again.st.log.cache.nvm == fs.st.log.cache.nvm
    ensures again.Files() == fs.Files() == old(fs.Files())
    ensures again.st.live == fs.st.live && again.st.log.h == fs.st.log.h && again.st.log.lo == fs.st.log.lo
    ensures again.st.log.free_bytes == fs.st.log.free_bytes
    ensures again.st.log.head_section == fs.st.log.head_section && again.st.log.tail_section == fs.st.log.tail_section
    ensures again.st.log.tail_available_offset == fs.st.log.tail_available_offset
    ensures again.st.log.tail_count == fs.st.log.tail_count
    ensures MayRemount(again.st.log)
    ensures again.dir_id_max == MaxDirId(Flat(again.st.items, again.st.log.lo)) <= fs.dir_id_max == old(fs.dir_id_max)
  {
    hide TinyFs.Valid, Image, Padded, Discoverable, Flat, MaxDirId;
    var _ := fs.WriteThrough();
    LeavesImage(fs);
    again := new TinyFs(fs.st.log.cache.nvm);
    TinyfsInit(again, fs.st.log.h, fs.st.log.lo, fs.st.items, fs.st.live);
    SameFields(again, fs);
    TopIsKept(fs);
  }

  // Every directory id in the log has been given out.
  lemma TopIsKept(fs: TinyFs)
    requires fs.Valid()
    ensures MaxDirId(Flat(fs.st.items, fs.st.log.lo)) <= fs.dir_id_max
  {
    hide LogOk, LogStore.Valid, IndexOk, TreeOk, Parented, ListsOk, TinyFs.Housed, IdsBelow, Flat, MaxDirId;
    fs.st.Parts();
    TopCovers(Flat(fs.st.items, fs.st.log.lo), fs.st.top);
  }

  // The log's fields are told by the log alone.
  lemma SameFields(a: TinyFs, b: TinyFs)
    requires a.Valid() && b.Valid() && a.st.log.h == b.st.log.h && a.st.log.lo == b.st.log.lo
    ensures a.st.log.free_bytes == b.st.log.free_bytes
    ensures a.st.log.head_section == b.st.log.head_section && a.st.log.tail_section == b.st.log.tail_section
    ensures a.st.log.tail_available_offset == b.st.log.tail_available_offset && a.st.log.tail_count == b.st.log.tail_count
  {
    hide TinyFs.Valid, LogStore.Valid, Free, Phys;
    RoomLeft(a);
    RoomLeft(b);
    FieldsOf(a.st.log);
    FieldsOf(b.st.log);
  }

  lemma FieldsOf(log: LogStore)
    requires log.Valid()
    ensures log.free_bytes == Free(log.h, log.lo) && log.head_section == Phys(log.lo)
    ensures log.tail_section == (if log.h == [] then N - 1 else Phys(|log.h| - 1))
    ensures log.tail_available_offset == TailOffset(log.h) && log.tail_count == |log.h| % 0x1_0000
  {
    hide Holds, Wf, Buffered;
  }
}
