// The file system's operations (dev/module/tinyfs/tinyfs.c:1000-1401, 1503-1510).
module FileSystem {
  import opened Sequences
  import opened Nor
  import opened Ring
  import opened Layout
  import opened LogWriter
  import opened Codec
  import opened LogNodes
  import opened LogReplay
  import opened Nodes
  import opened Table
  import opened Index
  import opened Collector
  import opened Tree
  import opened Subtree
  import opened Pool

  datatype Error =
    | NoError
    | RecordDataCorrupted
    | InsufficientNodeBuf
    | InsufficientRecordDataBuf
    | DirIdxOverflow
    | ParentDirNotFound
    | DirNotExisted
    | DirNotEmpty
    | DirKeyAlreadyExisted
    | RecordKeyNotFound

  class TinyFs {
    const st: Store
    var dir_id_max: u16
    ghost var kids: map<nat, seq<nat>>  // the children of each directory

    // Memory at power-up: statics are zero, the flash is what it was.
    constructor (flash: Flash)
      ensures PoweredUp() && st.log.cache.nvm == flash
      ensures fresh(st) && fresh(st.log) && fresh(st.log.cache) && fresh(st.log.cache.buf)
      ensures fresh(st.tab) && fresh(st.tab.pool) && fresh(st.tab.pool.refCnt)
    {
      st := new Store(flash);
      dir_id_max := 0;
      kids := map[];
    }

    ghost function Repr(): set<object> {
      {this, st, st.log, st.log.cache, st.log.cache.buf, st.tab, st.tab.pool, st.tab.pool.refCnt}
    }

    ghost predicate PoweredUp()
      reads this, st.log.cache, st.tab, st.tab.pool, st.tab.pool.refCnt
    {
      && st.log.cache.idx == 0 && st.log.cache.buf.Length == PAGE && Apart() && dir_id_max == 0
      && st.tab.Threaded() && st.tab.Counted() && st.tab.pool.Held() == {} && st.tab.lst == seq(N, _ => [])
      && st.tab.pool.allocatable != [] && st.tab.pool.allocatable[0] == st.tab.pool.Elem(ROOT)
    }

    ghost predicate Sound()
      reads this, st, st.tab
    {
      && st.tab.Threaded() && Joined(st.tab.nodes, st.tab.lst, st.who, st.key, st.live, kids, dir_id_max)
      && st.top <= dir_id_max
    }

    // The pool's held elements are the root and the nodes `nodeSet`.
    ghost predicate HousedAs(nodeSet: set<nat>)
      reads st.tab.pool, st.tab.pool.refCnt
    {
      st.tab.Counted() && st.tab.pool.Held() == nodeSet + {ROOT}
    }

    ghost predicate Housed()
      reads st, st.tab.pool, st.tab.pool.refCnt
    {
      HousedAs(st.key.Keys)
    }

    ghost predicate Apart() { st.log.cache.buf != st.tab.pool.refCnt }

    ghost predicate Settled()
      reads this, st, st.log, st.log.cache, st.log.cache.buf, st.log.cache.nvm, st.tab
    {
      Sound() && st.Valid() && st.skip == {} && st.Roomy()
    }

    ghost predicate Valid()
      reads this, st, st.log, st.log.cache, st.log.cache.buf, st.log.cache.nvm, st.tab, st.tab.pool, st.tab.pool.refCnt
    {
      Settled() && Housed() && Apart()
    }

    // get_record_by_name; `i` is where the record stands among its siblings.
    method GetRecordByName(parent: nat, name: u16) returns (idx: nat, prev: nat, ghost i: nat)
      requires Sound() && parent in kids && parent < POOL
      ensures idx != NIL ==> i < |kids[parent]| && kids[parent][i] == idx < POOL && IsRecordNamed(st.tab.nodes[idx], name)
      ensures idx != NIL ==> prev == if i == 0 then NIL else kids[parent][i - 1]
      ensures idx == NIL ==> forall x :: x in kids[parent] && x < POOL ==> !IsRecordNamed(st.tab.nodes[x], name)
    {
      hide IndexOk, Parented, Meaningful, ListsOk, TreeOk, ChainOk;
      ghost var s := kids[parent];
      ChainOfKids(parent);
      hide Sound;
      ChainStep(st.tab.nodes, st.key.Keys, parent, s, 0);
      idx, prev, i := st.tab.nodes[parent].child, NIL, 0;
      while idx != NIL
        invariant i <= |s| && idx == (if i < |s| then s[i] else NIL) && (i < |s| ==> idx != NIL)
        invariant prev == if i == 0 then NIL else s[i - 1]
        invariant forall j :: 0 <= j < i ==> s[j] < POOL && !IsRecordNamed(st.tab.nodes[s[j]], name)
        decreases |s| - i
      {
        ChainStep(st.tab.nodes, st.key.Keys, parent, s, i);
        var n := st.tab.nodes[idx];
        if !n.IsDir() && n.name == name {
          return;
        }
        if i + 1 < |s| {
          ChainStep(st.tab.nodes, st.key.Keys, parent, s, i + 1);
        }
        prev, idx, i := idx, n.nextSibling, i + 1;
      }
    }

    // get_child_dir_by_name
    method GetChildDirByName(parent: nat, name: u16) returns (idx: nat, ghost i: nat)
      requires Sound() && parent in kids && parent < POOL
      ensures idx != NIL ==> i < |kids[parent]| && kids[parent][i] == idx < POOL && IsDirNamed(st.tab.nodes[idx], name)
      ensures idx == NIL ==> forall x :: x in kids[parent] && x < POOL ==> !IsDirNamed(st.tab.nodes[x], name)
    {
      hide IndexOk, Parented, Meaningful, ListsOk, TreeOk, ChainOk;
      ghost var s := kids[parent];
      ChainOfKids(parent);
      hide Sound;
      ChainStep(st.tab.nodes, st.key.Keys, parent, s, 0);
      idx, i := st.tab.nodes[parent].child, 0;
      while idx != NIL
        invariant i <= |s| && idx == (if i < |s| then s[i] else NIL) && (i < |s| ==> idx != NIL)
        invariant forall j :: 0 <= j < i ==> s[j] < POOL && !IsDirNamed(st.tab.nodes[s[j]], name)
        decreases |s| - i
      {
        ChainStep(st.tab.nodes, st.key.Keys, parent, s, i);
        var n := st.tab.nodes[idx];
        if n.IsDir() && n.name == name {
          return;
        }
        if i + 1 < |s| {
          ChainStep(st.tab.nodes, st.key.Keys, parent, s, i + 1);
        }
        idx, i := n.nextSibling, i + 1;
      }
    }

    lemma ChainOfKids(d: nat)
      requires Sound() && d in kids
      ensures |st.tab.nodes| == POOL && ChainOk(st.tab.nodes, st.key.Keys, d, kids[d])
    {
      hide IndexOk, Parented, Meaningful, ListsOk, TreeOk, ChainOk;
      ChainIs(st.tab.nodes, st.key.Keys, kids, d);
    }

    // if_dir_exist, for any pointer whatever; `d` is the directory's node.
    method IfDirExist(dir: Pointer) returns (exist: bool, d: nat)
      requires Sound() && Housed()
      ensures exist ==> d in kids && d < POOL && dir == st.tab.pool.Elem(d)
      ensures !exist ==> forall e :: e in kids ==> dir != st.tab.pool.Elem(e)
    {
      hide TreeOk, IndexOk, Parented, Meaningful, ListsOk;
      exist, d := false, ROOT;
      var contain := st.tab.pool.ContainElement(dir);
      if contain {
        ghost var i :| i in st.tab.pool.Held() && dir == st.tab.pool.Elem(i);
        st.tab.pool.ElemInPool(i);
        d := st.tab.pool.Idx(dir);
        DirHeld(d);
        if st.tab.nodes[d].IsDir() {
          exist := true;
        }
      }
      if exists e :: e in kids && dir == st.tab.pool.Elem(e) {
        ghost var e :| e in kids && dir == st.tab.pool.Elem(e);
        DirHeld(e);
        st.tab.pool.ElemInPool(e);
      }
    }

    lemma DirHeld(d: nat)
      requires Sound() && Housed()
      ensures d in kids <==> d in st.tab.pool.Held() && d < |st.tab.nodes| == POOL && st.tab.nodes[d].IsDir()
    {
      hide IndexOk, Parented, Meaningful, ListsOk, Chains, Homes;
    }

    // ---- Changes to the tree ----

    ghost function Files(): Contents
      reads st
    {
      EntriesOf(st.live)
    }

    ghost function Dirs(): map<nat, u16>
      reads this`kids, st.tab
    {
      DirsOf(st.tab.nodes, kids)
    }

    // Between the steps of an operation: the tree holds the nodes `nodeSet`, which need not be those listed.
    ghost predicate Between(nodeSet: set<nat>, max: nat)
      reads this, st, st.log, st.log.cache, st.log.cache.buf, st.log.cache.nvm, st.tab
    {
      && st.Valid() && Parented(st.tab.nodes, st.key, st.live) && TreeOk(st.tab.nodes, nodeSet, kids)
      && Meaningful(st.live, max) && |st.tab.nodes| == POOL && st.top <= max
    }

    // garbage_collect_try leaves the tree and the meaning of the log alone.
    method MakeRoom(size: nat, ghost nodeSet: set<nat>, ghost max: nat)
      requires Between(nodeSet, max) && st.Roomy() && 2 * Sum(st.tab.list) + size + 2 * PAGE <= C
      modifies st, st.log, st.log.cache, st.log.cache.buf, st.log.cache.nvm, st.tab
      ensures Between(nodeSet, max) && st.log.free_bytes > size + C && Sum(st.tab.list) == old(Sum(st.tab.list))
      ensures st.who == old(st.who) && st.key == old(st.key) && st.skip == old(st.skip)
      ensures Files() == old(Files()) && Dirs() == old(Dirs()) && SameButPlace(old(st.tab.nodes), st.tab.nodes)
      ensures SameEntries(old(st.live), st.live) && |st.live| == |old(st.live)|
    {
      hide Store.Valid, Store.Roomy, TreeOk, Parented, Meaningful, SameEntries, SameButPlace;
      ghost var a, l := st.tab.nodes, st.live;
      st.GarbageCollectTry(size);
      TreeMoves(a, st.tab.nodes, nodeSet, kids);
      MeansSame(l, st.live, max);
      SameContents(l, st.live);
      SameDirs(a, st.tab.nodes, kids);
    }

    // A node that was just allocated becomes the first child of `d`.
    method Adopt(d: nat, idx: nat, name: u16, id: u16, isDir: bool, ghost max: nat)
      requires Between(st.key.Keys, max) && d in kids && d < POOL && idx !in st.key && ROOT < idx < POOL
      requires isDir ==> st.tab.nodes[d].idOrLength < id
      modifies this`kids, st.tab`nodes
      ensures Between(st.key.Keys + {idx}, max)
      ensures Dirs() == if isDir then old(Dirs())[idx := id] else old(Dirs())
      ensures st.tab.nodes[d].idOrLength == old(st.tab.nodes)[d].idOrLength && st.tab.nodes[d].IsDir()
      ensures var n := st.tab.nodes[idx];
              n.parentDir == d && n.name == name && n.IsDir() == isDir && n.idOrLength == id
    {
      hide Index.LogOk, Parented, ListsOk, IndexOk, TreeOk, LogStore.Valid, Store.Valid, Domain, Homes, Meaningful;
      st.Parts();
      DirIsNode(st.tab.nodes, st.key.Keys, kids, d);
      assert idx !in kids && idx != d;
      var n := st.tab.nodes[idx].(child := if isDir then NIL else 0, parentDir := d,
                                  nextSibling := st.tab.nodes[d].child, name := name, idOrLength := id);
      Adopts(st.tab.nodes, st.tab.list, st.tab.lst, st.who, st.key, st.live, kids, d, idx, n);
      var nodes := st.tab.nodes[idx := n];
      nodes := nodes[d := nodes[d].(child := idx)];
      DirsPut(st.tab.nodes, nodes, kids, d, idx, isDir);
      st.Relink(nodes);
      kids := KidsPut(kids, d, idx, isDir);
    }

    // ---- mkdir and write ----

    // The next node of the pool, if there is one.
    method Allocate() returns (idx: nat, ok: bool)
      requires Sound() && Housed()
      modifies st.tab.pool`allocatable, st.tab.pool.refCnt
      ensures if ok then |st.live| < POOL - 1 else |st.live| == POOL - 1
      ensures ok ==> ROOT < idx < POOL && idx !in st.key && HousedAs(st.key.Keys + {idx})
      ensures !ok ==> Housed()
    {
      hide TreeOk, IndexOk, Parented, Meaningful, ListsOk;
      LiveCounts(st.tab.nodes, st.tab.lst, st.who, st.key, st.live);
      idx, ok := st.tab.NodeAlloc();
    }

    // The node `idx`, already the first child of `d`, becomes a directory in the log.
    method EnterDir(d: nat, idx: nat, name: u16, id: u16, parent: u16)
      requires id > 0 && Between(st.key.Keys + {idx}, id - 1) && st.skip == {} && st.log.free_bytes > 9 + C
      requires ROOT < idx < POOL && idx !in st.key && |st.live| < POOL - 1 && d < POOL
      requires var n := st.tab.nodes[idx]; n.IsDir() && n.parentDir == d && n.name == name && n.idOrLength == id
      requires st.tab.nodes[d].idOrLength == parent < id == dir_id_max && Dir(id) !in st.live
      requires forall k :: k in st.live ==> !SameName(st.live[k].e, DirAdd(name, parent, id))
      modifies st, st.log, st.log.cache, st.log.cache.buf, st.log.cache.nvm, st.tab
      ensures Settled() && st.key.Keys == old(st.key).Keys + {idx}
      ensures Files() == old(Files())[Dir(id) := DirAdd(name, parent, id)] && Dirs() == old(Dirs())
    {
      hide Index.LogOk, LogStore.Valid, TreeOk, ListsOk, Parented, Meaningful, IndexOk, Store.Valid, SameButPlace, Added;
      hide EntriesOf, DirsOf;
      ghost var a, l, k, e := st.tab.nodes, st.live, st.key, DirAdd(name, parent, id);
      st.Parts();
      st.AddDir(idx, name, id, parent);
      st.Parts();
      st.log.Spare();
      Enters(a, st.tab.nodes, st.tab.lst, st.who, k, st.key, l, st.live, kids, idx, e, id - 1, id);
    }

    // The node `idx` has been taken from the pool for a new directory in `d`.
    method NewDir(d: nat, idx: nat, name: u16, ghost parent: u16)
      requires Settled() && 2 * Sum(st.tab.list) + 9 + 2 * PAGE <= C
      requires Apart() && HousedAs(st.key.Keys + {idx}) && d in kids && d < POOL && ROOT < idx < POOL && idx !in st.key
      requires |st.live| < POOL - 1 && dir_id_max < 0xffff
      requires parent == st.tab.nodes[d].idOrLength <= dir_id_max
      requires forall k :: k in st.live ==> !SameName(st.live[k].e, DirAdd(name, parent, 0))
      modifies this, st, st.log, st.log.cache, st.log.cache.buf, st.log.cache.nvm, st.tab
      ensures Valid()
      ensures dir_id_max == old(dir_id_max) + 1
      ensures Dirs() == old(Dirs())[idx := dir_id_max]
      ensures Files() == old(Files())[Dir(dir_id_max) := DirAdd(name, parent, dir_id_max)]
    {
      hide Index.LogOk, LogStore.Valid, TreeOk, ListsOk, Parented, Meaningful, IndexOk, Store.Valid, Store.Roomy, HousedAs;
      hide Dirs, EntriesOf;
      NewNode(d, idx);
      dir_id_max := dir_id_max + 1;
      Adopt(d, idx, name, dir_id_max, true, dir_id_max - 1);
      MakeRoom(9, st.key.Keys + {idx}, dir_id_max - 1);
      EnterDir(d, idx, name, dir_id_max, st.tab.nodes[d].idOrLength);
    }

    lemma NewNode(d: nat, idx: nat)
      requires Sound() && st.Valid() && d in kids && ROOT < idx && idx !in st.key
      ensures d < |st.tab.nodes| == POOL && idx !in kids && d != idx
      ensures forall id: u16 :: id > dir_id_max ==> Dir(id) !in st.live
    {
      hide Index.LogOk, LogStore.Valid, TreeOk, ListsOk, Parented, IndexOk, Store.Valid;
      st.Parts();
      DirIsNode(st.tab.nodes, st.key.Keys, kids, d);
      assert idx !in kids;
    }

    // record_write: the record, in the tree but not listed, is written and listed.
    method RecordWrite(d: nat, idx: nat, name: u16, parent: u16, data: Payload)
      requires Between(st.key.Keys + {idx}, dir_id_max) && st.Roomy() && st.skip <= {Rec(parent, name)}
      requires 2 * Sum(st.tab.list) + |data| + 11 + 2 * PAGE <= C && |st.live| < POOL - 1 && d < POOL
      requires ROOT < idx < POOL && idx !in st.key && Rec(parent, name) !in st.live
      requires var n := st.tab.nodes[idx]; !n.IsDir() && n.parentDir == d && n.name == name
      requires st.tab.nodes[d].idOrLength == parent && st.tab.nodes[d].IsDir()
      modifies st, st.log, st.log.cache, st.log.cache.buf, st.log.cache.nvm, st.tab
      ensures Settled() && st.key.Keys == old(st.key).Keys + {idx}
      ensures Files() == old(Files())[Rec(parent, name) := RecordAdd(name, parent, data)] && Dirs() == old(Dirs())
    {
      hide Index.LogOk, LogStore.Valid, TreeOk, ListsOk, Parented, Meaningful, IndexOk, Store.Valid, Store.Roomy;
      MakeRoom(|data| + 11, st.key.Keys + {idx}, dir_id_max);
      EnterRecord(d, idx, name, parent, data);
    }

    method EnterRecord(d: nat, idx: nat, name: u16, parent: u16, data: Payload)
      requires Between(st.key.Keys + {idx}, dir_id_max) && st.skip <= {Rec(parent, name)}
      requires st.log.free_bytes > |data| + 11 + C && |data| + 11 <= C && |st.live| < POOL - 1 && d < POOL
      requires ROOT < idx < POOL && idx !in st.key && Rec(parent, name) !in st.live
      requires var n := st.tab.nodes[idx]; !n.IsDir() && n.parentDir == d && n.name == name
      requires st.tab.nodes[d].idOrLength == parent && st.tab.nodes[d].IsDir()
      modifies st, st.log, st.log.cache, st.log.cache.buf, st.log.cache.nvm, st.tab
      ensures Settled() && st.key.Keys == old(st.key).Keys + {idx}
      ensures Files() == old(Files())[Rec(parent, name) := RecordAdd(name, parent, data)] && Dirs() == old(Dirs())
    {
      hide Index.LogOk, LogStore.Valid, TreeOk, ListsOk, Parented, Meaningful, IndexOk, Store.Valid, SameButPlace, Added;
      ghost var e, l, k := RecordAdd(name, parent, data), st.live, st.key;
      st.Parts();
      Measured(st.tab.nodes, st.tab.list, st.tab.lst, st.who, k, l, kids, idx, |data|);
      st.Relink(st.tab.nodes[idx := st.tab.nodes[idx].(idOrLength := |data|)]);
      ghost var a := st.tab.nodes;
      st.AddRecord(idx, name, parent, data);
      st.Parts();
      st.log.Spare();
      Enters(a, st.tab.nodes, st.tab.lst, st.who, k, st.key, l, st.live, kids, idx, e, dir_id_max, dir_id_max);
    }

    // The record of an existing node is written anew.
    method Overwrite(d: nat, idx: nat, name: u16, parent: u16, data: Payload)
      requires Settled() && d in kids && d < POOL && idx in kids[d] && idx < POOL
      requires IsRecordNamed(st.tab.nodes[idx], name) && st.tab.nodes[d].idOrLength == parent
      requires 2 * (Sum(st.tab.list) - Replaced(Files(), Rec(parent, name))) + |data| + 11 + 2 * PAGE <= C
      modifies st, st.log, st.log.cache, st.log.cache.buf, st.log.cache.nvm, st.tab
      ensures Settled() && st.key.Keys == old(st.key).Keys
      ensures Files() == old(Files())[Rec(parent, name) := RecordAdd(name, parent, data)] && Dirs() == old(Dirs())
    {
      hide Index.LogOk, LogStore.Valid, TreeOk, ListsOk, Parented, Meaningful, IndexOk, Store.Valid, Store.Roomy;
      hide SameButPlace, EntriesOf, DirsOf, NextIn;
      ghost var a, l, k := st.tab.nodes, st.live, st.key;
      st.Parts();
      RecordIs(a, st.tab.lst, st.who, k, l, kids, dir_id_max, d, idx);
      st.Detach(idx);
      LetGo(a, st.tab.nodes, k, l, kids, idx, k[idx], dir_id_max);
      assert (k - {idx}).Keys + {idx} == k.Keys;
      RecordWrite(d, idx, name, parent, data);
    }

    // A record of this name was not there: the node `idx` from the pool is for it.
    method NewRecord(d: nat, idx: nat, name: u16, parent: u16, data: Payload)
      requires Settled() && d in kids && d < POOL && HousedAs(st.key.Keys + {idx}) && Apart()
      requires ROOT < idx < POOL && idx !in st.key && |st.live| < POOL - 1
      requires st.tab.nodes[d].idOrLength == parent && Rec(parent, name) !in st.live
      requires 2 * Sum(st.tab.list) + |data| + 11 + 2 * PAGE <= C
      modifies this, st, st.log, st.log.cache, st.log.cache.buf, st.log.cache.nvm, st.tab
      ensures Valid()
      ensures Files() == old(Files())[Rec(parent, name) := RecordAdd(name, parent, data)] && Dirs() == old(Dirs())
      ensures dir_id_max == old(dir_id_max)
    {
      hide Index.LogOk, LogStore.Valid, TreeOk, ListsOk, Parented, Meaningful, IndexOk, Store.Valid, Store.Roomy, HousedAs;
      NewNode(d, idx);
      Adopt(d, idx, name, st.tab.nodes[idx].idOrLength, false, dir_id_max);
      RecordWrite(d, idx, name, parent, data);
    }

    // Whether the record is there, and where.
    method FindRecord(d: nat, name: u16) returns (idx: nat, prev: nat, ghost i: nat)
      requires Sound() && d in kids && d < POOL
      ensures d < |st.tab.nodes|
      ensures var k := Rec(st.tab.nodes[d].idOrLength, name);
              && (idx != NIL <==> k in Files())
              && (idx != NIL ==> idx < POOL && idx in st.key && st.key[idx] == k && !st.tab.nodes[idx].IsDir())
      ensures idx != NIL ==> i < |kids[d]| && kids[d][i] == idx && prev == if i == 0 then NIL else kids[d][i - 1]
      ensures idx != NIL ==> IsRecordNamed(st.tab.nodes[idx], name)
    {
      hide TreeOk, Parented, Meaningful, IndexOk, ListsOk, Joined;
      idx, prev, i := GetRecordByName(d, name);
      RecordHere(st.tab.nodes, st.tab.lst, st.who, st.key, st.live, kids, dir_id_max, d, name);
    }

    lemma CountFiles()
      ensures |Files()| == |st.live|
    {
      ContentsCount(st.live);
    }

    // The part of do_tinyfs_write for a record that is not there
    method WriteNew(d: nat, name: u16, parent: u16, data: Payload) returns (error: Error)
      requires Valid() && d in kids && d < POOL && st.tab.nodes[d].idOrLength == parent && Rec(parent, name) !in Files()
      requires 2 * Sum(st.tab.list) + |data| + 11 + 2 * PAGE <= C
      modifies this, st, st.log, st.log.cache, st.log.cache.buf, st.log.cache.nvm, st.tab, st.tab.pool, st.tab.pool.refCnt
      ensures Valid() && dir_id_max == old(dir_id_max) && Dirs() == old(Dirs())
      ensures error == if |old(Files())| < POOL - 1 then NoError else InsufficientNodeBuf
      ensures Files() == if error == NoError then old(Files())[Rec(parent, name) := RecordAdd(name, parent, data)] else old(Files())
    {
      hide Index.LogOk, LogStore.Valid, Store.Valid, Store.Roomy, TinyFs.Sound, HousedAs, Dirs;
      CountFiles();
      var idx, ok := Allocate();
      if !ok {
        return InsufficientNodeBuf;
      }
      NewRecord(d, idx, name, parent, data);
      error := NoError;
    }

    // do_tinyfs_write
    method DoWrite(d: nat, name: u16, data: Payload) returns (error: Error)
      requires Valid() && d in kids && d < POOL
      requires var r := Rec(st.tab.nodes[d].idOrLength, name);
               2 * (Sum(st.tab.list) - Replaced(Files(), r)) + |data| + 11 + 2 * PAGE <= C
      modifies this, st, st.log, st.log.cache, st.log.cache.buf, st.log.cache.nvm, st.tab, st.tab.pool, st.tab.pool.refCnt
      ensures Valid() && dir_id_max == old(dir_id_max) && Dirs() == old(Dirs())
      ensures var id := old(st.tab.nodes)[d].idOrLength;
              && error == (if Rec(id, name) in old(Files()) || |old(Files())| < POOL - 1 then NoError else InsufficientNodeBuf)
              && Files() == if error == NoError then old(Files())[Rec(id, name) := RecordAdd(name, id, data)] else old(Files())
    {
      hide Index.LogOk, LogStore.Valid, Store.Valid, Store.Roomy, TinyFs.Sound, HousedAs, Dirs;
      var record, _, _ := FindRecord(d, name);
      var id := st.tab.nodes[d].idOrLength;
      if record != NIL {
        Overwrite(d, record, name, id, data);
        error := NoError;
      } else {
        error := WriteNew(d, name, id, data);
      }
    }

    method FindDir(d: nat, name: u16) returns (idx: nat)
      requires Sound() && d in kids && d < POOL
      ensures d < |st.tab.nodes| && (idx != NIL <==> HasDir(Files(), st.tab.nodes[d].idOrLength, name))
      ensures idx != NIL ==> idx in Dirs() && Dir(Dirs()[idx]) in Files()
      ensures idx != NIL ==> Files()[Dir(Dirs()[idx])] == DirAdd(name, st.tab.nodes[d].idOrLength, Dirs()[idx])
      ensures idx == NIL ==> forall k :: k in st.live ==> !SameName(st.live[k].e, DirAdd(name, st.tab.nodes[d].idOrLength, 0))
    {
      hide TreeOk, Parented, Meaningful, IndexOk, ListsOk, Joined;
      ghost var i;
      idx, i := GetChildDirByName(d, name);
      DirHere(st.tab.nodes, st.tab.lst, st.who, st.key, st.live, kids, dir_id_max, d, name);
      HasDirLive(st.live, st.tab.nodes[d].idOrLength, name);
      if idx != NIL {
        RecordIs(st.tab.nodes, st.tab.lst, st.who, st.key, st.live, kids, dir_id_max, d, idx);
        KidIsDir(st.tab.nodes, st.tab.lst, st.who, st.key, st.live, kids, dir_id_max, d, idx);
      }
    }

    // tinyfs_mkdir, once the upper directory is known to exist
    method DoMkdir(d: nat, name: u16) returns (made: nat, error: Error)
      requires Valid() && d in kids && d < POOL && 2 * Sum(st.tab.list) + 9 + 2 * PAGE <= C
      modifies this, st, st.log, st.log.cache, st.log.cache.buf, st.log.cache.nvm, st.tab, st.tab.pool, st.tab.pool.refCnt
      ensures Valid() && old(dir_id_max) + (if error == NoError then 1 else 0) == dir_id_max
      ensures var c, id := old(Files()), old(st.tab.nodes)[d].idOrLength;
              && error == (if HasDir(c, id, name) then DirKeyAlreadyExisted
                           else if old(dir_id_max) == 0xffff then DirIdxOverflow
                           else if |c| < POOL - 1 then NoError else InsufficientNodeBuf)
              && Files() == (if error == NoError then c[Dir(dir_id_max) := DirAdd(name, id, dir_id_max)] else c)
              && (error in {NoError, DirKeyAlreadyExisted} ==>
                    && made in Dirs() && Dir(Dirs()[made]) in Files()
                    && Files()[Dir(Dirs()[made])] == DirAdd(name, id, Dirs()[made]))
      ensures Dirs() == if error == NoError then old(Dirs())[made := dir_id_max] else old(Dirs())
      ensures error == NoError ==> made !in old(Dirs()) && made < POOL
    {
      hide Index.LogOk, LogStore.Valid, TreeOk, ListsOk, Parented, Meaningful, IndexOk, Store.Valid, Store.Roomy, HousedAs;
      hide HasDir;
      made := FindDir(d, name);
      CountFiles();
      if made != NIL {
        return made, DirKeyAlreadyExisted;
      }
      if dir_id_max == 0xffff {
        return NIL, DirIdxOverflow;
      }
      var idx, ok := Allocate();
      if !ok {
        return NIL, InsufficientNodeBuf;
      }
      ParentId(d);
      NewNode(d, idx);
      NewDir(d, idx, name, st.tab.nodes[d].idOrLength);
      return idx, NoError;
    }

    lemma ParentId(d: nat)
      requires Sound() && d in kids
      ensures d < |st.tab.nodes| && st.tab.nodes[d].idOrLength <= dir_id_max
    {
      DirById(st.tab.nodes, st.tab.lst, st.who, st.key, st.live, kids, dir_id_max, d);
    }

    // ---- Deleting ----

    // What node_del needs to know of the node: child `i` of `d`, with no children of its own.
    ghost predicate Removable(d: nat, x: nat, prev: nat, i: nat)
      reads this
    {
      && d in kids && d < POOL && i < |kids[d]| && kids[d][i] == x < POOL
      && prev == (if i == 0 then NIL else kids[d][i - 1])
      && (x in kids ==> kids[x] == [])
    }

    ghost function KidsLess(d: nat, x: nat, i: nat): map<nat, seq<nat>>
      requires d in kids && i < |kids[d]|
      reads this
    {
      kids[d := Without(kids[d], i)] - {x}
    }

    // The tombstone has been written; the node leaves the tree.
    method Unlink(d: nat, x: nat, prev: nat, ghost i: nat, ghost h0: History, ghost e: Entry)
      requires st.Wrote(h0, e) && Parented(st.tab.nodes, st.key, st.live) && TreeOk(st.tab.nodes, st.key.Keys, kids)
      requires Removable(d, x, prev, i) && |st.tab.nodes| == POOL
      modifies this`kids, st.tab`nodes
      ensures st.Wrote(h0, e) && Parented(st.tab.nodes, st.key, st.live) && |st.tab.nodes| == POOL
      ensures kids == old(KidsLess(d, x, i)) && TreeOk(st.tab.nodes, st.key.Keys - {x}, kids)
      ensures Dirs() == old(Dirs()) - {x}
    {
      hide Index.LogOk, LogStore.Valid, TreeOk, ListsOk, Parented, Meaningful, IndexOk, Store.Wrote, ChainOk, Unlinked;
      hide DirsOf, Without, FirstOf;
      ghost var a := st.tab.nodes;
      st.WroteParts(h0, e);
      ChainIs(a, st.key.Keys, kids, d);
      SiblingIs(a, st.key.Keys, d, kids[d], i);
      var b := st.tab.nodes;
      if prev != NIL {
        b := b[prev := b[prev].(nextSibling := b[x].nextSibling)];
      } else {
        b := b[d := b[d].(child := b[x].nextSibling)];
      }
      Unlinks(a, b, st.tab.list, st.tab.lst, st.who, st.key, st.live, kids, d, i);
      st.RelinkWrote(b, h0, e);
      kids := KidsLess(d, x, i);
    }

    // node_del after the collector has run
    method Bury(d: nat, x: nat, prev: nat, ghost i: nat)
      requires Between(st.key.Keys, dir_id_max) && st.skip == {} && x < POOL
      requires st.log.free_bytes > (if st.tab.nodes[x].IsDir() then 5 else 7) + C
      requires Removable(d, x, prev, i) && x in st.key && st.key[x] in st.live
      requires st.live[st.key[x]].e.parent == st.tab.nodes[d].idOrLength
      modifies this`kids, st, st.log, st.log.cache, st.log.cache.buf, st.log.cache.nvm, st.tab
      ensures Settled() && kids == old(KidsLess(d, x, i)) && st.key == old(st.key) - {x}
      ensures Files() == old(Files()) - {old(st.key)[x]} && Dirs() == old(Dirs()) - {x}
      ensures Sum(st.tab.list) <= old(Sum(st.tab.list))
    {
      hide Index.LogOk, LogStore.Valid, TreeOk, ListsOk, Parented, Meaningful, IndexOk, Store.Valid, Store.Wrote, EntriesOf;
      hide DirsOf, Without;
      ghost var h0, live, key := st.log.h, st.live, st.key;
      st.Parts();
      ghost var e := st.Tombstone(x, st.tab.nodes[d].idOrLength);
      Unlink(d, x, prev, i, h0, e);
      ghost var a := st.tab.nodes;
      st.Forget(x, h0, e);
      st.Parts();
      st.log.Spare();
      Leaves(a, st.tab.nodes, st.tab.lst, st.who, key, live, kids, x, key[x], dir_id_max);
    }

    method NodeDel(d: nat, x: nat, prev: nat, ghost i: nat)
      requires Valid() && Removable(d, x, prev, i) && 2 * Sum(st.tab.list) + 7 + 2 * PAGE <= C
      modifies this`kids, st, st.log, st.log.cache, st.log.cache.buf, st.log.cache.nvm, st.tab, st.tab.pool, st.tab.pool.refCnt
      ensures Valid() && kids == old(KidsLess(d, x, i)) && x in old(st.key) && st.key == old(st.key) - {x}
      ensures Files() == old(Files()) - {old(st.key)[x]} && Dirs() == old(Dirs()) - {x}
      ensures Sum(st.tab.list) <= old(Sum(st.tab.list))
    {
      hide Index.LogOk, LogStore.Valid, TreeOk, ListsOk, Parented, Meaningful, IndexOk, Store.Valid, Store.Roomy, HousedAs;
      ghost var key := st.key;
      RecordIs(st.tab.nodes, st.tab.lst, st.who, st.key, st.live, kids, dir_id_max, d, x);
      MakeRoom(if st.tab.nodes[x].IsDir() then 5 else 7, st.key.Keys, dir_id_max);
      Bury(d, x, prev, i);
      FreeNode(key.Keys, x);
    }

    method FreeNode(ghost nodeSet: set<nat>, x: nat)
      requires HousedAs(nodeSet) && x in nodeSet && x != ROOT
      modifies st.tab.pool, st.tab.pool.refCnt
      ensures HousedAs(nodeSet - {x})
    {
      assert nodeSet + {ROOT} - {x} == nodeSet - {x} + {ROOT};
      st.tab.NodeFree(x);
    }

    ghost predicate Spared(kids0: map<nat, seq<nat>>, dirs0: map<nat, u16>, id: nat)
      reads this, st.tab
    {
      Spares(kids0, dirs0, kids, Dirs(), id)
    }

    // No directory has a new id, and there are no new ones.
    ghost predicate Kept(dirs0: map<nat, u16>)
      reads this, st.tab
    {
      forall e :: e in Dirs() ==> e in dirs0 && dirs0[e] == Dirs()[e]
    }

    // What is known of the first child before it is deleted.
    lemma FirstChild(d: nat, x: nat)
      requires Sound() && d in kids && kids[d] != [] && kids[d][0] == x
      ensures d < POOL && x < POOL == |st.tab.nodes| && ROOT < x && x in st.key && st.key[x] in Files() && st.tab.nodes[d].child == x
      ensures var id, n := st.tab.nodes[d].idOrLength, st.tab.nodes[x];
              && st.key[x] in Below(Files(), id)
              && (n.IsDir() ==> x in kids && st.key[x] == Dir(n.idOrLength) && id < n.idOrLength)
              && (n.IsDir() ==> Below(Files(), n.idOrLength) <= Below(Files(), id))
              && (!n.IsDir() ==> x !in kids)
              && n.nextSibling == FirstOf(kids[d][1..])
    {
      hide TreeOk, IndexOk, Parented, Meaningful, ListsOk;
      ghost var a, key := st.tab.nodes, st.key;
      RecordIs(a, st.tab.lst, st.who, key, st.live, kids, dir_id_max, d, x);
      if a[x].IsDir() {
        KidIsDir(a, st.tab.lst, st.who, key, st.live, kids, dir_id_max, d, x);
      }
      KidGrows(a, key.Keys, kids, d, x);
      TreeCloses(a, st.tab.lst, st.who, key, st.live, kids, dir_id_max);
      BelowChild(Files(), key[x], a[d].idOrLength);
      ChainIs(a, key.Keys, kids, d);
      assert a[kids[d][0]].nextSibling == NextIn(kids[d], 0);
      if x in kids {
        DirIsNode(a, key.Keys, kids, x);
      }
    }

    // The link to the first child; no child bears the number that stands for none.
    lemma FirstIs(d: nat)
      requires Sound() && d in kids
      ensures d < |st.tab.nodes| && st.tab.nodes[d].child == FirstOf(kids[d]) && NIL !in kids[d]
    {
      hide IndexOk, Parented, Meaningful, ListsOk;
      ChainIs(st.tab.nodes, st.key.Keys, kids, d);
    }

    lemma Emptied(d: nat)
      requires Sound() && d in kids
      ensures d < |st.tab.nodes| && Closed(Files())
      ensures kids[d] == [] <==> forall k :: k in Files() ==> Files()[k].parent != st.tab.nodes[d].idOrLength
    {
      hide Joined, ListsOk;
      TreeCloses(st.tab.nodes, st.tab.lst, st.who, st.key, st.live, kids, dir_id_max);
      NoChild(st.tab.nodes, st.tab.lst, st.who, st.key, st.live, kids, dir_id_max, d);
      if kids[d] != [] {
        ghost var k :| k in st.live && IsAdd(st.live[k].e) && st.live[k].e.parent == st.tab.nodes[d].idOrLength;
        assert Files()[k].parent == st.tab.nodes[d].idOrLength;
      }
    }

    // One turn of node_del_recursively's loop; `gone` is what it deletes.
    method DelFirst(d: nat, x: nat) returns (next: nat, ghost gone: set<Key>)
      requires Valid() && d in kids && kids[d] != [] && kids[d][0] == x && 2 * Sum(st.tab.list) + 7 + 2 * PAGE <= C
      requires d < |st.tab.nodes|
      modifies this`kids, st, st.log, st.log.cache, st.log.cache.buf, st.log.cache.nvm, st.tab, st.tab.pool, st.tab.pool.refCnt
      ensures Kept(old(Dirs()))
      ensures Valid() && d in kids && kids[d] == old(kids[d])[1..] && next == FirstOf(kids[d])
      ensures gone <= Below(old(Files()), old(st.tab.nodes)[d].idOrLength) && Files() == old(Files()) - gone
      ensures Spared(old(kids), old(Dirs()), old(st.tab.nodes)[d].idOrLength)
      ensures Sum(st.tab.list) <= old(Sum(st.tab.list))
      decreases 0x1_0000 - st.tab.nodes[d].idOrLength, 1
    {
      hide Sound, Index.LogOk, LogStore.Valid, Store.Valid, Store.Roomy, HousedAs, Below, Spares, Files, Dirs;
      ghost var c, kids0, dirs0 := Files(), kids, Dirs();
      gone := EmptyChild(d, x);
      next := st.tab.nodes[x].nextSibling;
      ghost var k := st.key[x];
      ChildSpares(kids0, dirs0, kids, Dirs(), d, x, kids[d][1..]);
      MinusMinus(c, gone, k);
      assert Without(kids[d], 0) == kids[d][1..];
      NodeDel(d, x, NIL, 0);
      gone := gone + {k};
    }

    // The first child of `d`, if it is a directory, is emptied first.
    method EmptyChild(d: nat, x: nat) returns (ghost gone: set<Key>)
      requires Valid() && d in kids && kids[d] != [] && kids[d][0] == x && 2 * Sum(st.tab.list) + 7 + 2 * PAGE <= C
      requires d < |st.tab.nodes|
      modifies this`kids, st, st.log, st.log.cache, st.log.cache.buf, st.log.cache.nvm, st.tab, st.tab.pool, st.tab.pool.refCnt
      ensures Kept(old(Dirs()))
      ensures Valid() && d in kids && kids[d] == old(kids[d]) && Removable(d, x, NIL, 0) && d < |st.tab.nodes|
      ensures x < |st.tab.nodes| && st.tab.nodes[x].nextSibling == FirstOf(kids[d][1..])
      ensures x in st.key && Files() == old(Files()) - gone && NIL !in kids[d]
      ensures gone + {st.key[x]} <= Below(old(Files()), old(st.tab.nodes)[d].idOrLength)
      ensures forall e :: e in old(Dirs()) && old(Dirs())[e] <= old(st.tab.nodes)[d].idOrLength ==>
                e in Dirs() && Dirs()[e] == old(Dirs())[e] && e != x && (e in old(kids) ==> e in kids && kids[e] == old(kids)[e])
      ensures d in old(Dirs()) && old(Dirs())[d] == old(st.tab.nodes)[d].idOrLength
      ensures Sum(st.tab.list) <= old(Sum(st.tab.list))
      decreases 0x1_0000 - st.tab.nodes[d].idOrLength, 0
    {
      hide Sound, Index.LogOk, LogStore.Valid, Store.Valid, Store.Roomy, HousedAs, Below;
      FirstChild(d, x);
      FirstIs(d);
      gone := {};
      if st.tab.nodes[x].IsDir() {
        ghost var k := st.key[x];
        gone := Below(Files(), st.tab.nodes[x].idOrLength);
        assert x in Dirs();
        NodeDelRecursively(x);
        FirstChild(d, x);
        assert st.key[x] == k;
      }
    }

    method NodeDelRecursively(d: nat)
      requires Valid() && d in kids && d < POOL && 2 * Sum(st.tab.list) + 7 + 2 * PAGE <= C && d < |st.tab.nodes|
      modifies this`kids, st, st.log, st.log.cache, st.log.cache.buf, st.log.cache.nvm, st.tab, st.tab.pool, st.tab.pool.refCnt
      ensures Kept(old(Dirs()))
      ensures Valid() && d in kids && kids[d] == []
      ensures Files() == old(Files()) - Below(old(Files()), old(st.tab.nodes)[d].idOrLength)
      ensures Spared(old(kids), old(Dirs()), old(st.tab.nodes)[d].idOrLength) && d < |st.tab.nodes|
      ensures Sum(st.tab.list) <= old(Sum(st.tab.list))
      decreases 0x1_0000 - st.tab.nodes[d].idOrLength, 2
    {
      hide Sound, Index.LogOk, LogStore.Valid, Store.Valid, Store.Roomy, HousedAs, Below, EntriesOf;
      ghost var c, id, gone := Files(), st.tab.nodes[d].idOrLength, {};
      FirstIs(d);
      var idx := st.tab.nodes[d].child;
      while idx != NIL
        invariant Valid() && d in kids && d < |st.tab.nodes| && idx == FirstOf(kids[d])
        invariant NIL !in kids[d] && st.tab.nodes[d].idOrLength == id
        invariant gone <= Below(c, id) && Files() == c - gone
        invariant Spared(old(kids), old(Dirs()), id) && Kept(old(Dirs()))
        invariant 2 * Sum(st.tab.list) + 7 + 2 * PAGE <= C && Sum(st.tab.list) <= old(Sum(st.tab.list))
        decreases |kids[d]|
      {
        ghost var more;
        idx, more := DelFirst(d, idx);
        BelowMore(c, gone, id);
        gone := gone + more;
        FirstIs(d);
      }
      Emptied(d);
      assert forall j :: j in c - gone ==> c[j].parent != id by {
        assert forall j :: j in c - gone ==> (c - gone)[j] == c[j];
      }
      AllGone(c, gone, id);
    }

    // get_prev_node; `i` is where the directory stands among its siblings.
    method GetPrevNode(parent: nat, dir: nat) returns (prev: nat, ghost i: nat)
      requires Sound() && parent in kids && parent < POOL && dir in kids[parent]
      ensures i < |kids[parent]| && kids[parent][i] == dir && prev == if i == 0 then NIL else kids[parent][i - 1]
      ensures if prev == NIL then kids[parent][0] == dir
              else exists j :: 0 < j < |kids[parent]| && kids[parent][j] == dir && kids[parent][j - 1] == prev
    {
      hide IndexOk, Parented, Meaningful, ListsOk, TreeOk, ChainOk;
      ghost var s := kids[parent];
      ChainOfKids(parent);
      hide Sound;
      ChainStep(st.tab.nodes, st.key.Keys, parent, s, 0);
      var idx := st.tab.nodes[parent].child;
      prev, i := NIL, 0;
      while idx != NIL
        invariant i <= |s| && idx == (if i < |s| then s[i] else NIL) && (i < |s| ==> idx != NIL)
        invariant (forall j :: 0 <= j < i ==> s[j] != dir) && (i == 0 <==> prev == NIL)
        invariant i > 0 ==> prev == s[i - 1]
        decreases |s| - i
      {
        if idx == dir {
          return;
        }
        ChainStep(st.tab.nodes, st.key.Keys, parent, s, i);
        if i + 1 < |s| {
          ChainStep(st.tab.nodes, st.key.Keys, parent, s, i + 1);
        }
        prev, idx, i := idx, st.tab.nodes[idx].nextSibling, i + 1;
      }
    }

    // A directory other than the root, and its parent.
    lemma DirAndParent(d: nat)
      requires Sound() && d in kids && d != ROOT
      ensures d < |st.tab.nodes| == POOL && d in st.key
      ensures st.key[d] == Dir(st.tab.nodes[d].idOrLength) && Dir(st.tab.nodes[d].idOrLength) in Files()
      ensures var p := st.tab.nodes[d].parentDir;
              p < POOL && p in kids && d in kids[p] && st.tab.nodes[p].idOrLength < st.tab.nodes[d].idOrLength
    {
      hide IndexOk, Parented, Meaningful, ListsOk, Chains;
      DirById(st.tab.nodes, st.tab.lst, st.who, st.key, st.live, kids, dir_id_max, d);
      DirIsNode(st.tab.nodes, st.key.Keys, kids, d);
      assert AtHome(st.tab.nodes, kids, d);
    }

    // tinyfs_del_dir, once the directory, other than the root, is known to exist
    method DoDelDir(d: nat, force: bool) returns (error: Error)
      requires Valid() && d in kids && d < POOL && d != ROOT && 2 * Sum(st.tab.list) + 7 + 2 * PAGE <= C
      modifies this`kids, st, st.log, st.log.cache, st.log.cache.buf, st.log.cache.nvm, st.tab, st.tab.pool, st.tab.pool.refCnt
      ensures Valid() && Kept(old(Dirs()))
      ensures var c, id := old(Files()), old(st.tab.nodes)[d].idOrLength;
              && error == (if !force && exists k :: k in c && IsAdd(c[k]) && c[k].parent == id then DirNotEmpty else NoError)
              && Files() == (if error == NoError then c - Below(c, id) - {Dir(id)} else c)
              && (!force && error == NoError ==> Below(c, id) == {})
    {
      hide Sound, Index.LogOk, LogStore.Valid, Store.Valid, Store.Roomy, HousedAs, Below;
      DirAndParent(d);
      var parent := st.tab.nodes[d].parentDir;
      var prev, i := GetPrevNode(parent, d);
      if force {
        ForceEmpty(d, parent, prev, i);
      } else {
        FirstIs(d);
        Emptied(d);
        if st.tab.nodes[d].child != NIL {
          return DirNotEmpty;
        }
        NothingBelow(Files(), st.tab.nodes[d].idOrLength);
      }
      NodeDel(parent, d, prev, i);
      error := NoError;
    }

    // node_del_recursively, and what it leaves of the directory itself
    method ForceEmpty(d: nat, parent: nat, prev: nat, ghost i: nat)
      requires Valid() && d in kids && d < POOL && d != ROOT && 2 * Sum(st.tab.list) + 7 + 2 * PAGE <= C && d < |st.tab.nodes|
      requires parent == st.tab.nodes[d].parentDir && parent in kids && i < |kids[parent]| && kids[parent][i] == d
      requires prev == if i == 0 then NIL else kids[parent][i - 1]
      modifies this`kids, st, st.log, st.log.cache, st.log.cache.buf, st.log.cache.nvm, st.tab, st.tab.pool, st.tab.pool.refCnt
      ensures Kept(old(Dirs()))
      ensures Valid() && Removable(parent, d, prev, i) && 2 * Sum(st.tab.list) + 7 + 2 * PAGE <= C
      ensures d in st.key && st.key[d] == Dir(old(st.tab.nodes)[d].idOrLength)
      ensures Files() == old(Files()) - Below(old(Files()), old(st.tab.nodes)[d].idOrLength)
    {
      hide Sound, Index.LogOk, LogStore.Valid, Store.Valid, Store.Roomy, HousedAs, Below;
      DirAndParent(d);
      assert parent in Dirs() && Dirs()[parent] < Dirs()[d];
      NodeDelRecursively(d);
      DirAndParent(d);
    }

    // do_tinyfs_del_record
    method DoDelRecord(d: nat, name: u16) returns (error: Error)
      requires Valid() && d in kids && d < POOL && 2 * Sum(st.tab.list) + 7 + 2 * PAGE <= C
      modifies this`kids, st, st.log, st.log.cache, st.log.cache.buf, st.log.cache.nvm, st.tab, st.tab.pool, st.tab.pool.refCnt
      ensures Valid() && Dirs() == old(Dirs())
      ensures var k := Rec(old(st.tab.nodes)[d].idOrLength, name);
              && error == (if k in old(Files()) then NoError else RecordKeyNotFound)
              && Files() == old(Files()) - {k}
    {
      hide Index.LogOk, LogStore.Valid, TreeOk, ListsOk, Parented, Meaningful, IndexOk, Store.Valid, Store.Roomy, HousedAs;
      var record, prev, i := FindRecord(d, name);
      if record == NIL {
        return RecordKeyNotFound;
      }
      DirIsNode(st.tab.nodes, st.key.Keys, kids, d);
      assert record !in kids by {
        NotDir(record);
      }
      NodeDel(d, record, prev, i);
      error := NoError;
    }

    lemma NotDir(x: nat)
      requires Sound() && x < |st.tab.nodes| && !st.tab.nodes[x].IsDir()
      ensures x !in kids && x !in Dirs()
    {
      hide IndexOk, Parented, Meaningful, ListsOk, Chains, Homes;
      if x in kids {
        DirIsNode(st.tab.nodes, st.key.Keys, kids, x);
      }
    }

    // do_tinyfs_read: the caller's buffer holds `length` bytes.
    method DoRead(d: nat, name: u16, length: nat) returns (data: seq<byte>, error: Error)
      requires Sound() && st.Valid() && d in kids && d < POOL
      ensures d < |st.tab.nodes|
      ensures var k := Rec(st.tab.nodes[d].idOrLength, name);
              && (k in Files() ==> Files()[k].RecordAdd?)
              && error == (if k !in Files() then RecordKeyNotFound
                           else if |Files()[k].data| <= length then NoError else InsufficientRecordDataBuf)
              && data == (if error == NoError then Files()[k].data else [])
      ensures |data| <= length
    {
      hide Index.LogOk, LogStore.Valid, TreeOk, ListsOk, Parented, Meaningful, IndexOk, NodeMatches, NodeAt;
      data := [];
      var record, _, _ := FindRecord(d, name);
      if record == NIL {
        return [], RecordKeyNotFound;
      }
      var n := st.tab.nodes[record];
      ghost var k := st.key[record];
      ghost var it := st.live[k];
      st.Parts();
      WhereListed(st.tab.nodes, st.tab.lst, st.who, st.key, st.live, record);
      MatchedDir(n, it);
      LiveNode(st.log.h, st.log.lo, st.items, st.live, st.skip, k);
      if n.idOrLength > length {
        return [], InsufficientRecordDataBuf;
      }
      MatchedPlace(n, it);
      var ok;
      data, ok := NodeDataRead(st.log, n.section, n.offset, n.idOrLength, it);
      error := if ok then NoError else RecordDataCorrupted;
    }

    // ---- The operations, on any pointer whatever ----

    // `dir` is the handle of the directory `d`.
    ghost predicate Handle(dir: Pointer, d: nat)
      reads this
    {
      d in kids && d < POOL && dir == st.tab.pool.Elem(d)
    }

    // A pointer is the handle of one directory at most.
    lemma OneHandle(dir: Pointer, d: nat)
      requires Housed() && Handle(dir, d)
      ensures forall e :: Handle(dir, e) ==> e == d
    {
      forall e | Handle(dir, e)
        ensures e == d
      {
        st.tab.pool.ElemInPool(d);
        st.tab.pool.ElemInPool(e);
      }
    }

    ghost predicate NoHandle(dir: Pointer)
      reads this
    {
      forall d :: d in kids ==> dir != st.tab.pool.Elem(d)
    }

    // Room for `size` more bytes: twice what is live, the new bytes and two pages fit in a section.
    predicate RoomFor(size: int)
      reads st.tab
    {
      2 * Sum(st.tab.list) + size + 2 * PAGE <= C
    }

    method Mkdir(upper: Pointer, name: u16) returns (made: Pointer, error: Error, ghost d: nat, ghost x: nat)
      requires Valid() && RoomFor(9)
      modifies this, st, st.log, st.log.cache, st.log.cache.buf, st.log.cache.nvm, st.tab, st.tab.pool, st.tab.pool.refCnt
      ensures Valid()
      ensures error == ParentDirNotFound ==>
                old(NoHandle(upper)) && Files() == old(Files()) && Dirs() == old(Dirs()) && dir_id_max == old(dir_id_max)
      ensures error != ParentDirNotFound ==>
                && old(Handle(upper, d)) && d in old(Dirs())
                && var c, id := old(Files()), old(Dirs())[d];
                   && error == (if HasDir(c, id, name) then DirKeyAlreadyExisted
                                else if old(dir_id_max) == 0xffff then DirIdxOverflow
                                else if |c| < POOL - 1 then NoError else InsufficientNodeBuf)
                   && old(dir_id_max) + (if error == NoError then 1 else 0) == dir_id_max
                   && Files() == (if error == NoError then c[Dir(dir_id_max) := DirAdd(name, id, dir_id_max)] else c)
                   && Dirs() == (if error == NoError then old(Dirs())[x := dir_id_max] else old(Dirs()))
                   && (error == NoError ==> x !in old(Dirs()) && x < POOL)
                   && (error in {NoError, DirKeyAlreadyExisted} ==>
                         && made == st.tab.pool.Elem(x) && x in Dirs() && Dir(Dirs()[x]) in Files()
                         && Files()[Dir(Dirs()[x])] == DirAdd(name, id, Dirs()[x]))
    {
      hide Sound, Store.Valid, HousedAs, HasDir;
      made, x := upper, 0;
      var exist, dir := IfDirExist(upper);
      d := dir;
      if exist {
        IsDirectory(d);
        var node;
        node, error := DoMkdir(dir, name);
        made, x := st.tab.pool.Elem(node), node;
      } else {
        error := ParentDirNotFound;
      }
    }

    lemma IsDirectory(d: nat)
      requires Sound() && d in kids
      ensures d < |st.tab.nodes| && d in Dirs() && Dirs()[d] == st.tab.nodes[d].idOrLength
    {
      ParentId(d);
    }

    method Write(dir: Pointer, name: u16, data: Payload) returns (error: Error, ghost d: nat)
      requires Valid() && data != []
      requires forall e :: Handle(dir, e) && e in Dirs() ==>
                 RoomFor(|data| + 11 - 2 * Replaced(Files(), Rec(Dirs()[e], name)))
      modifies this, st, st.log, st.log.cache, st.log.cache.buf, st.log.cache.nvm, st.tab, st.tab.pool, st.tab.pool.refCnt
      ensures Valid() && dir_id_max == old(dir_id_max) && Dirs() == old(Dirs())
      ensures error == ParentDirNotFound ==> old(NoHandle(dir)) && Files() == old(Files())
      ensures error != ParentDirNotFound ==>
                && old(Handle(dir, d)) && d in old(Dirs())
                && var c, k := old(Files()), Rec(old(Dirs())[d], name);
                   && error == (if k in c || |c| < POOL - 1 then NoError else InsufficientNodeBuf)
                   && Files() == if error == NoError then c[k := RecordAdd(name, old(Dirs())[d], data)] else c
    {
      hide Sound, Store.Valid, HousedAs;
      var exist, node := IfDirExist(dir);
      d := node;
      if exist {
        IsDirectory(d);
        error := DoWrite(node, name, data);
      } else {
        error := ParentDirNotFound;
      }
    }

    method Read(dir: Pointer, name: u16, length: nat) returns (data: seq<byte>, error: Error, ghost d: nat)
      requires Valid()
      ensures error == ParentDirNotFound ==> NoHandle(dir)
      ensures error != ParentDirNotFound ==>
                && Handle(dir, d) && d in Dirs()
                && var k := Rec(Dirs()[d], name);
                   && (k in Files() ==> Files()[k].RecordAdd?)
                   && error == (if k !in Files() then RecordKeyNotFound
                                else if |Files()[k].data| <= length then NoError else InsufficientRecordDataBuf)
                   && data == (if error == NoError then Files()[k].data else [])
      ensures |data| <= length
    {
      hide Sound, HousedAs, Store.Valid, Files, Dirs;
      var exist, node := IfDirExist(dir);
      d := node;
      if exist {
        IsDirectory(d);
        data, error := DoRead(node, name, length);
      } else {
        data, error := [], ParentDirNotFound;
      }
    }

    method RecordExist(dir: Pointer, name: u16) returns (exist: bool)
      requires Valid()
      ensures exist <==> exists d :: Handle(dir, d) && d in Dirs() && Rec(Dirs()[d], name) in Files()
    {
      hide Sound, HousedAs, Store.Valid, Files, Dirs;
      var node;
      exist, node := IfDirExist(dir);
      if exist {
        IsDirectory(node);
        OneHandle(dir, node);
        var record, _, _ := FindRecord(node, name);
        exist := record != NIL;
        assert Handle(dir, node) && node in Dirs();
        assert exist <==> Rec(Dirs()[node], name) in Files();
      } else {
        assert NoHandle(dir);
        assert forall e :: !Handle(dir, e);
      }
    }

    method DelRecord(dir: Pointer, name: u16) returns (error: Error, ghost d: nat)
      requires Valid() && RoomFor(7)
      modifies this, st, st.log, st.log.cache, st.log.cache.buf, st.log.cache.nvm, st.tab, st.tab.pool, st.tab.pool.refCnt
      ensures Valid() && dir_id_max == old(dir_id_max) && Dirs() == old(Dirs())
      ensures error == ParentDirNotFound ==> old(NoHandle(dir)) && Files() == old(Files())
      ensures error != ParentDirNotFound ==>
                && old(Handle(dir, d)) && d in old(Dirs())
                && var k := Rec(old(Dirs())[d], name);
                   && error == (if k in old(Files()) then NoError else RecordKeyNotFound)
                   && Files() == old(Files()) - {k}
    {
      hide Sound, Store.Valid, HousedAs;
      var exist, node := IfDirExist(dir);
      d := node;
      if exist {
        IsDirectory(d);
        error := DoDelRecord(node, name);
      } else {
        error := ParentDirNotFound;
      }
    }

    // The root is never passed.
    method DelDir(dir: Pointer, force: bool) returns (error: Error, ghost d: nat)
      requires Valid() && RoomFor(7) && dir != st.tab.pool.Elem(ROOT)
      modifies this, st, st.log, st.log.cache, st.log.cache.buf, st.log.cache.nvm, st.tab, st.tab.pool, st.tab.pool.refCnt
      ensures Valid() && dir_id_max == old(dir_id_max) && Kept(old(Dirs()))
      ensures error == DirNotExisted ==> old(NoHandle(dir)) && Files() == old(Files())
      ensures error != DirNotExisted ==>
                && old(Handle(dir, d)) && d in old(Dirs())
                && var c, id := old(Files()), old(Dirs())[d];
                   && error == (if !force && exists k :: k in c && IsAdd(c[k]) && c[k].parent == id then DirNotEmpty else NoError)
                   && Files() == (if error == NoError then c - Below(c, id) - {Dir(id)} else c)
                   && (!force && error == NoError ==> Below(c, id) == {})
    {
      hide Sound, Store.Valid, HousedAs, Below;
      var exist, node := IfDirExist(dir);
      d := node;
      if exist {
        IsDirectory(d);
        error := DoDelDir(node, force);
      } else {
        error := DirNotExisted;
      }
    }

    // tinyfs_write_through
    method WriteThrough() returns (padding: nat)
      requires Valid()
      modifies st.log`free_bytes, st.log`tail_available_offset, st.log`h, st.log.cache, st.log.cache.buf, st.log.cache.nvm
      ensures Valid() && Files() == old(Files()) && Dirs() == old(Dirs()) && padding < PAGE
      ensures st.log.h == Padded(old(st.log.h)) && st.log.free_bytes == old(st.log.free_bytes) - padding
      ensures st.log.cache.idx == 0 && st.log.cache.View() == st.log.cache.nvm.mem
    {
      hide Index.LogOk, LogStore.Valid, TreeOk, ListsOk, Parented, Meaningful, IndexOk, HousedAs;
      padding := st.WriteThrough();
    }

    // The directories' handles are exactly those of the live directories and the root.
    lemma DirsAreFiles()
      requires Sound()
      ensures forall d :: d in Dirs() ==> if d == ROOT then Dirs()[d] == 0 else Dirs()[d] > 0 && Dir(Dirs()[d]) in Files()
      ensures forall id :: Dir(id) in Files() ==> exists d :: d in Dirs() && d != ROOT && Dirs()[d] == id
    {
      hide TreeOk, Parented, Meaningful, ListsOk;
      forall d | d in Dirs()
        ensures if d == ROOT then Dirs()[d] == 0 else Dirs()[d] > 0 && Dir(Dirs()[d]) in Files()
      {
        DirById(st.tab.nodes, st.tab.lst, st.who, st.key, st.live, kids, dir_id_max, d);
      }
      forall id | Dir(id) in Files()
        ensures exists d :: d in Dirs() && d != ROOT && Dirs()[d] == id
      {
        DirAt(st.tab.nodes, st.tab.lst, st.who, st.key, st.live, kids, dir_id_max, id);
        assert st.who[Dir(id)] in Dirs();
      }
    }
  }
}
