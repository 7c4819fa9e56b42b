// Whole runs of the file system, with power cycles in between, as runs of a machine whose state is a map
// (dev/module/tinyfs/tinyfs.c:776-803, 1064-1401, 1503-1524).
module Session {
  import opened Nor
  import opened Ring
  import opened Layout
  import opened LogWriter
  import opened Codec
  import opened LogReplay
  import opened Nodes
  import opened Index
  import opened Collector
  import opened Tree
  import opened Subtree
  import opened Pool
  import opened Discovery
  import opened FileSystem
  import opened Mounting
  import opened Weights
  import opened Loading

  // ---- The reference machine ----

  // What a caller asks for
  datatype Op =
    | Mkdir(upper: Pointer, name: u16)
    | Write(dir: Pointer, name: u16, data: Payload)
    | Read(dir: Pointer, name: u16, length: nat)
    | Exist(dir: Pointer, name: u16)
    | DelRecord(dir: Pointer, name: u16)
    | DelDir(dir: Pointer, force: bool)
    | WriteThrough
    | PowerCycle

  // What the caller gets; `Skipped` when its check before the call failed.
  datatype Answer =
    | Done
    | Made(dir: Pointer)
    | Already(dir: Pointer)
    | Data(bytes: seq<byte>)
    | Found(exist: bool)
    | Failed(error: Error)
    | Skipped

  // The contents, the handles of the directories with their ids, the greatest id given out since the mount,
  // and whether a mount would find the ends of the log.
  datatype State = State(files: Contents, handles: map<Pointer, u16>, greatest: u16, mountable: bool)

  // Twice the contents, the bytes to be added and two pages fit in a section.
  ghost predicate Fits(c: Contents, size: int) { 2 * Weight(c) + size + 2 * PAGE <= C }

  // The caller's check: room, data to write, no deletion of the root, and for a power cycle that the ends of
  // the log will be found.
  ghost predicate Allowed(s: State, op: Op) {
    match op
    case Mkdir(_, _) => Fits(s.files, 9)
    case Write(dir, name, data) =>
      data != [] && (dir in s.handles ==> Fits(s.files, |data| + 11 - 2 * Replaced(s.files, Rec(s.handles[dir], name))))
    case Read(_, _, _) => true
    case Exist(_, _) => true
    case DelRecord(_, _) => Fits(s.files, 7)
    case DelDir(dir, _) => Fits(s.files, 7) && (dir in s.handles ==> s.handles[dir] != 0)
    case WriteThrough => true
    case PowerCycle => s.mountable
  }

  // Whether the log's ends can be found may change with any append.
  ghost predicate Becomes(s': State, t: State) { s' == t.(mountable := s'.mountable) }

  ghost predicate MkdirStep(s: State, upper: Pointer, name: u16, a: Answer, s': State) {
    if upper !in s.handles then a == Failed(ParentDirNotFound) && Becomes(s', s)
    else
      var parent := s.handles[upper];
      if HasDir(s.files, parent, name) then
        && a.Already? && a.dir in s.handles && Becomes(s', s)
        && var k := Dir(s.handles[a.dir]); k in s.files && s.files[k] == DirAdd(name, parent, k.id)
      else if s.greatest == 0xffff then a == Failed(DirIdxOverflow) && Becomes(s', s)
      else if |s.files| >= POOL - 1 then a == Failed(InsufficientNodeBuf) && Becomes(s', s)
      else
        && a.Made? && a.dir !in s.handles
        && var id := s.greatest + 1;
           Becomes(s', s.(files := s.files[Dir(id) := DirAdd(name, parent, id)], handles := s.handles[a.dir := id], greatest := id))
  }

  ghost predicate WriteStep(s: State, dir: Pointer, name: u16, data: Payload, a: Answer, s': State) {
    if dir !in s.handles then a == Failed(ParentDirNotFound) && Becomes(s', s)
    else
      var parent := s.handles[dir];
      var k := Rec(parent, name);
      if k in s.files || |s.files| < POOL - 1
      then a == Done && Becomes(s', s.(files := s.files[k := RecordAdd(name, parent, data)]))
      else a == Failed(InsufficientNodeBuf) && Becomes(s', s)
  }

  ghost predicate ReadStep(s: State, dir: Pointer, name: u16, length: nat, a: Answer) {
    if dir !in s.handles then a == Failed(ParentDirNotFound)
    else
      var k := Rec(s.handles[dir], name);
      if k !in s.files then a == Failed(RecordKeyNotFound)
      else if s.files[k].RecordAdd? && |s.files[k].data| <= length then a == Data(s.files[k].data)
      else a == Failed(InsufficientRecordDataBuf)
  }

  ghost predicate DelRecordStep(s: State, dir: Pointer, name: u16, a: Answer, s': State) {
    if dir !in s.handles then a == Failed(ParentDirNotFound) && Becomes(s', s)
    else
      var k := Rec(s.handles[dir], name);
      if k in s.files then a == Done && Becomes(s', s.(files := s.files - {k}))
      else a == Failed(RecordKeyNotFound) && Becomes(s', s)
  }

  // The handles that are left when only the directories of `c` are.
  ghost function Surviving(handles: map<Pointer, u16>, c: Contents): map<Pointer, u16> {
    map p | p in handles && (handles[p] == 0 || Dir(handles[p]) in c) :: handles[p]
  }

  ghost predicate DelDirStep(s: State, dir: Pointer, force: bool, a: Answer, s': State) {
    if dir !in s.handles then a == Failed(DirNotExisted) && Becomes(s', s)
    else
      var id := s.handles[dir];
      if force || forall k :: k in s.files && IsAdd(s.files[k]) ==> s.files[k].parent != id then
        var c := s.files - Below(s.files, id) - {Dir(id)};
        a == Done && Becomes(s', s.(files := c, handles := Surviving(s.handles, c)))
      else a == Failed(DirNotEmpty) && Becomes(s', s)
  }

  // Handles are new after a power cycle, but there is one for each directory; the greatest id is found anew
  // among the nodes that the log still holds.
  ghost predicate PowerCycleStep(s: State, a: Answer, s': State) {
    && a == Done && s'.files == s.files && s'.mountable
    && HandlesFit(s') && s'.greatest <= s.greatest
  }

  ghost predicate Step(s: State, op: Op, a: Answer, s': State) {
    if !Allowed(s, op) then a == Skipped && s' == s
    else
      match op
      case Mkdir(upper, name) => MkdirStep(s, upper, name, a, s')
      case Write(dir, name, data) => WriteStep(s, dir, name, data, a, s')
      case Read(dir, name, length) => ReadStep(s, dir, name, length, a) && s' == s
      case Exist(dir, name) => a == Found(dir in s.handles && Rec(s.handles[dir], name) in s.files) && s' == s
      case DelRecord(dir, name) => DelRecordStep(s, dir, name, a, s')
      case DelDir(dir, force) => DelDirStep(s, dir, force, a, s')
      case WriteThrough => a == Done && s' == s
      case PowerCycle => PowerCycleStep(s, a, s')
  }

  ghost predicate Steps(states: seq<State>, ops: seq<Op>, answers: seq<Answer>) {
    && |answers| == |ops| && |states| == |ops| + 1
    && forall i :: 0 <= i < |ops| ==> Step(states[i], ops[i], answers[i], states[i + 1])
  }

  // Exactly the root and the directories have handles, one each, and no id is greater than the greatest.
  ghost predicate HandlesFit(s: State) {
    && (forall p :: p in s.handles ==> s.handles[p] <= s.greatest && (s.handles[p] == 0 || Dir(s.handles[p]) in s.files))
    && (forall p, q :: p in s.handles && q in s.handles && s.handles[p] == s.handles[q] ==> p == q)
    && (exists p :: p in s.handles && s.handles[p] == 0)
    && (forall id :: Dir(id) in s.files ==> id > 0 && exists p :: p in s.handles && s.handles[p] == id)
  }

  // What is true of every state of a run; a ring of three sections can always be mounted.
  ghost predicate StateOk(s: State) {
    && HandlesFit(s) && Closed(s.files) && |s.files| <= POOL - 1 && (N == 3 ==> s.mountable)
    && forall k :: k in s.files ==> KeyOf(s.files[k]) == k
  }

  // ---- When each answer comes ----

  // An operation is skipped when twice the contents, its bytes and two pages do not fit in a section, and for
  // the three reasons that a caller is told of.
  lemma WhenSkipped(s: State, op: Op, a: Answer, s': State)
    requires Step(s, op, a, s')
    ensures op.Mkdir? ==> (a == Skipped <==> 2 * Weight(s.files) + 9 + 2 * PAGE > C)
    ensures op.DelRecord? ==> (a == Skipped <==> 2 * Weight(s.files) + 7 + 2 * PAGE > C)
    ensures op.DelDir? ==>
              (a == Skipped <==> 2 * Weight(s.files) + 7 + 2 * PAGE > C || (op.dir in s.handles && s.handles[op.dir] == 0))
    ensures op.Write? && op.dir !in s.handles ==> (a == Skipped <==> op.data == [])
    ensures op.Write? && op.dir in s.handles ==>
              var k := Rec(s.handles[op.dir], op.name);
              var replaced := if k in s.files then Total(s.files[k]) else 0;
              (a == Skipped <==> op.data == [] || 2 * (Weight(s.files) - replaced) + |op.data| + 11 + 2 * PAGE > C)
    ensures op.Read? || op.Exist? || op.WriteThrough? ==> a != Skipped
    ensures op.PowerCycle? ==> (a == Skipped <==> !s.mountable)
    ensures a == Skipped ==> s' == s
  {
    hide HandlesFit, Surviving, HasDir;
  }

  // A directory is reported missing exactly when the pointer is no handle, and then nothing changes.
  lemma MissingDirectory(s: State, op: Op, a: Answer, s': State)
    requires Step(s, op, a, s') && a != Skipped
    ensures op.Mkdir? ==> (a == Failed(ParentDirNotFound) <==> op.upper !in s.handles)
    ensures op.Write? || op.Read? || op.DelRecord? ==> (a == Failed(ParentDirNotFound) <==> op.dir !in s.handles)
    ensures op.DelDir? ==> (a == Failed(DirNotExisted) <==> op.dir !in s.handles)
    ensures a == Failed(ParentDirNotFound) || a == Failed(DirNotExisted) ==>
              s'.files == s.files && s'.handles == s.handles && s'.greatest == s.greatest
  {
    hide Allowed, HandlesFit, Surviving, HasDir;
  }

  // A new name is refused for lack of an id or of a node alone, in that order.
  lemma MkdirAnswers(s: State, op: Op, a: Answer, s': State)
    requires StateOk(s) && Step(s, op, a, s') && op.Mkdir? && a != Skipped && op.upper in s.handles
    ensures var parent := s.handles[op.upper];
            var taken := exists k :: k in s.files && s.files[k].DirAdd? && s.files[k].parent == parent && s.files[k].name == op.name;
            && (taken ==>
                  && a.Already? && a.dir in s.handles
                  && var id := s.handles[a.dir]; Dir(id) in s.files && s.files[Dir(id)] == DirAdd(op.name, parent, id))
            && (!taken && s.greatest < 0xffff && |s.files| < POOL - 1 ==>
                  && a.Made? && a.dir !in s.handles && s'.greatest == s.greatest + 1
                  && s'.handles == s.handles[a.dir := s'.greatest] && Dir(s'.greatest) !in s.files
                  && s'.files == s.files[Dir(s'.greatest) := DirAdd(op.name, parent, s'.greatest)])
            && (!taken && s.greatest == 0xffff ==> a == Failed(DirIdxOverflow))
            && (!taken && s.greatest < 0xffff && |s.files| == POOL - 1 ==> a == Failed(InsufficientNodeBuf))
    ensures !a.Made? ==> s'.files == s.files && s'.handles == s.handles && s'.greatest == s.greatest
  {
    hide Allowed, Closed;
  }

  // A record that is there is always replaced; a new one is refused only when the pool has no node left.
  lemma WriteAnswers(s: State, op: Op, a: Answer, s': State)
    requires Step(s, op, a, s') && op.Write? && a != Skipped && op.dir in s.handles
    ensures var k := Rec(s.handles[op.dir], op.name);
            && (k in s.files || |s.files| < POOL - 1 ==> a == Done && s'.files == s.files[k := RecordAdd(op.name, k.parent, op.data)])
            && (k !in s.files && |s.files| >= POOL - 1 ==> a == Failed(InsufficientNodeBuf) && s'.files == s.files)
    ensures s'.handles == s.handles && s'.greatest == s.greatest
  {
    hide Allowed;
  }

  // A record is delivered exactly when it fits in the buffer; otherwise the answer says what is wrong.
  lemma ReadAnswers(s: State, op: Op, a: Answer, s': State)
    requires StateOk(s) && Step(s, op, a, s') && op.Read? && op.dir in s.handles
    ensures var k := Rec(s.handles[op.dir], op.name);
            if k !in s.files then a == Failed(RecordKeyNotFound)
            else
              && s.files[k].RecordAdd?
              && a == if |s.files[k].data| > op.length then Failed(InsufficientRecordDataBuf) else Data(s.files[k].data)
    ensures s' == s && (a.Data? ==> |a.bytes| <= op.length)
  {
    hide HandlesFit;
    assert Rec(s.handles[op.dir], op.name) in s.files ==> IsAdd(s.files[Rec(s.handles[op.dir], op.name)]);
  }

  lemma DelRecordAnswers(s: State, op: Op, a: Answer, s': State)
    requires Step(s, op, a, s') && op.DelRecord? && a != Skipped && op.dir in s.handles
    ensures var k := Rec(s.handles[op.dir], op.name);
            && (k in s.files ==> a == Done && k !in s'.files && s'.files == s.files - {k})
            && (k !in s.files ==> a == Failed(RecordKeyNotFound) && s'.files == s.files)
    ensures s'.handles == s.handles && s'.greatest == s.greatest
  {
    hide Allowed;
  }

  // With force a directory always goes, with all that is in it; without, exactly if it is empty.
  lemma DelDirAnswers(s: State, op: Op, a: Answer, s': State)
    requires StateOk(s) && Step(s, op, a, s') && op.DelDir? && a != Skipped && op.dir in s.handles
    ensures var id := s.handles[op.dir];
            && (a == Failed(DirNotEmpty) <==> !op.force && exists k :: k in s.files && s.files[k].parent == id)
            && (a == Done || (a == Failed(DirNotEmpty) && s'.files == s.files && s'.handles == s.handles))
            && (a == Done ==>
                  && op.dir !in s'.handles && Dir(id) !in s'.files
                  && (forall k :: k in s'.files ==> k in s.files && s'.files[k] == s.files[k] && s'.files[k].parent != id)
                  && (forall k :: k in s.files && k !in s'.files ==> k == Dir(id) || k in Below(s.files, id)))
    ensures s'.greatest == s.greatest
  {
    hide Below, HandlesFit;
    if a == Done {
      Gone(s, op, a, s');
    }
  }

  lemma Gone(s: State, op: Op, a: Answer, s': State)
    requires StateOk(s) && Step(s, op, a, s') && op.DelDir? && a == Done
    ensures op.dir in s.handles && s.handles[op.dir] != 0
    ensures forall k :: k in s'.files ==> k in s.files && s.files[k].parent != s.handles[op.dir]
  {
    var id := s.handles[op.dir];
    forall k | k in s'.files
      ensures s.files[k].parent != id
    {
      BelowIs(s.files, id, k);
    }
  }

  // ---- What holds of every run ----

  // The step may change what is stored under the key.
  ghost predicate Touches(s: State, op: Op, k: Key) {
    match op
    case Mkdir(_, _) => k.Dir?
    case Write(dir, name, _) => dir in s.handles && k == Rec(s.handles[dir], name)
    case DelRecord(dir, name) => dir in s.handles && k == Rec(s.handles[dir], name)
    case DelDir(dir, _) => dir in s.handles && (k == Dir(s.handles[dir]) || k in Below(s.files, s.handles[dir]))
    case _ => false
  }

  lemma LeavesAlone(s: State, op: Op, a: Answer, s': State, k: Key)
    requires Step(s, op, a, s') && !Touches(s, op, k)
    ensures (k in s'.files <==> k in s.files) && (k in s.files ==> s'.files[k] == s.files[k])
  {
    hide Below, Allowed, HandlesFit, HasDir, Surviving;
  }

  // What was written stays until a step touches it.
  lemma {:induction false} LastWriteStands(states: seq<State>, ops: seq<Op>, answers: seq<Answer>, i: nat, j: nat, k: Key)
    requires Steps(states, ops, answers) && i <= j <= |ops|
    requires forall m :: i <= m < j ==> !Touches(states[m], ops[m], k)
    ensures (k in states[j].files <==> k in states[i].files) && (k in states[i].files ==> states[j].files[k] == states[i].files[k])
    decreases j - i
  {
    hide Step, Touches;
    if i < j {
      LastWriteStands(states, ops, answers, i, j - 1, k);
      LeavesAlone(states[j - 1], ops[j - 1], answers[j - 1], states[j], k);
    }
  }

  lemma WriteDone(s: State, op: Op, a: Answer, s': State)
    requires Step(s, op, a, s') && op.Write? && a == Done
    ensures op.dir in s.handles
    ensures var k := Rec(s.handles[op.dir], op.name); k in s'.files && s'.files[k] == RecordAdd(op.name, k.parent, op.data)
  {
  }

  lemma ReadIs(s: State, op: Op, a: Answer, s': State, data: Payload)
    requires Step(s, op, a, s') && op.Read? && op.dir in s.handles && |data| <= op.length
    requires var k := Rec(s.handles[op.dir], op.name); k in s.files && s.files[k] == RecordAdd(op.name, k.parent, data)
    ensures a == Data(data)
  {
  }

  // A record that was written reads back, by whatever handle its directory has then, as it was last written,
  // however much has happened to the rest and however often power was cycled.
  lemma ReadsLastWrite(states: seq<State>, ops: seq<Op>, answers: seq<Answer>, i: nat, j: nat)
    requires Steps(states, ops, answers) && i < j < |ops|
    requires ops[i].Write? && answers[i] == Done && ops[j].Read? && ops[j].name == ops[i].name && |ops[i].data| <= ops[j].length
    requires ops[i].dir in states[i].handles && ops[j].dir in states[j].handles
    requires states[j].handles[ops[j].dir] == states[i].handles[ops[i].dir]
    requires forall m :: i < m < j ==> !Touches(states[m], ops[m], Rec(states[i].handles[ops[i].dir], ops[i].name))
    ensures answers[j] == Data(ops[i].data)
  {
    hide Step, Touches;
    var k := Rec(states[i].handles[ops[i].dir], ops[i].name);
    WriteDone(states[i], ops[i], answers[i], states[i + 1]);
    LastWriteStands(states, ops, answers, i + 1, j, k);
    ReadIs(states[j], ops[j], answers[j], states[j + 1], ops[i].data);
  }

  lemma StepsOneMore(states: seq<State>, ops: seq<Op>, answers: seq<Answer>, n: nat, a: Answer, s': State)
    requires n < |ops| && Steps(states, ops[..n], answers) && Step(states[n], ops[n], a, s')
    ensures Steps(states + [s'], ops[..n + 1], answers + [a])
  {
    hide Step;
    var more, said := states + [s'], answers + [a];
    forall i | 0 <= i <= n
      ensures Step(more[i], ops[..n + 1][i], said[i], more[i + 1])
    {
      if i < n {
        assert Step(states[i], ops[..n][i], answers[i], states[i + 1]);
      }
    }
  }

  // ---- The file system as a state of the machine ----

  ghost function HandlesOf(pool: LinkedBuffer, dirs: map<nat, u16>): map<Pointer, u16> {
    map p | p in (set d | d in dirs :: pool.Elem(d)) && pool.InPool(p) && pool.Idx(p) in dirs :: dirs[pool.Idx(p)]
  }

  lemma HandlesAre(pool: LinkedBuffer, dirs: map<nat, u16>)
    requires 0 < pool.elementSize && forall d :: d in dirs ==> d < pool.bufLength
    ensures forall d :: d in dirs ==> pool.Elem(d) in HandlesOf(pool, dirs) && HandlesOf(pool, dirs)[pool.Elem(d)] == dirs[d]
    ensures forall p :: p in HandlesOf(pool, dirs) ==>
              exists d :: d in dirs && p == pool.Elem(d) && HandlesOf(pool, dirs)[p] == dirs[d]
  {
    forall d | d in dirs
      ensures pool.Elem(d) in HandlesOf(pool, dirs) && HandlesOf(pool, dirs)[pool.Elem(d)] == dirs[d]
    {
      pool.ElemInPool(d);
    }
  }

  lemma ElemsDiffer(pool: LinkedBuffer, d: nat, e: nat)
    requires 0 < pool.elementSize && d < pool.bufLength && e < pool.bufLength && pool.Elem(d) == pool.Elem(e)
    ensures d == e
  {
    pool.ElemInPool(d);
    pool.ElemInPool(e);
  }

  // The directory that a handle is for
  lemma HandleOf(pool: LinkedBuffer, dirs: map<nat, u16>, p: Pointer) returns (d: nat)
    requires 0 < pool.elementSize && (forall d :: d in dirs ==> d < pool.bufLength) && p in HandlesOf(pool, dirs)
    ensures d in dirs && p == pool.Elem(d) && HandlesOf(pool, dirs)[p] == dirs[d]
  {
    HandlesAre(pool, dirs);
    d :| d in dirs && p == pool.Elem(d) && HandlesOf(pool, dirs)[p] == dirs[d];
  }

  lemma HandleFor(pool: LinkedBuffer, dirs: map<nat, u16>, d: nat)
    requires 0 < pool.elementSize && (forall d :: d in dirs ==> d < pool.bufLength) && d in dirs
    ensures pool.Elem(d) in HandlesOf(pool, dirs) && HandlesOf(pool, dirs)[pool.Elem(d)] == dirs[d]
  {
    HandlesAre(pool, dirs);
  }

  lemma HandlesPut(pool: LinkedBuffer, dirs: map<nat, u16>, x: nat, id: u16)
    requires 0 < pool.elementSize && x < pool.bufLength && x !in dirs && forall d :: d in dirs ==> d < pool.bufLength
    ensures pool.Elem(x) !in HandlesOf(pool, dirs)
    ensures HandlesOf(pool, dirs[x := id]) == HandlesOf(pool, dirs)[pool.Elem(x) := id]
  {
    hide *;
    var a, b := HandlesOf(pool, dirs[x := id]), HandlesOf(pool, dirs)[pool.Elem(x) := id];
    if pool.Elem(x) in HandlesOf(pool, dirs) {
      var d := HandleOf(pool, dirs, pool.Elem(x));
      ElemsDiffer(pool, d, x);
    }
    HandleFor(pool, dirs[x := id], x);
    forall p | p in a
      ensures p in b && a[p] == b[p]
    {
      var d := HandleOf(pool, dirs[x := id], p);
      if d != x {
        HandleFor(pool, dirs, d);
      }
    }
    forall p | p in b
      ensures p in a
    {
      if p != pool.Elem(x) {
        var d := HandleOf(pool, dirs, p);
        HandleFor(pool, dirs[x := id], d);
      }
    }
  }

  // Exactly the root and the directories of `c` are there, each once.
  ghost predicate DirsFit(dirs: map<nat, u16>, c: Contents) {
    && ROOT in dirs && dirs[ROOT] == 0
    && (forall d :: d in dirs && d != ROOT ==> dirs[d] > 0 && Dir(dirs[d]) in c)
    && (forall d, e :: d in dirs && e in dirs && dirs[d] == dirs[e] ==> d == e)
    && (forall id :: Dir(id) in c ==> exists d :: d in dirs && d != ROOT && dirs[d] == id)
  }

  // When directories go, their handles do, and no others.
  lemma HandlesSurvive(pool: LinkedBuffer, dirs: map<nat, u16>, dirs': map<nat, u16>, c: Contents, c': Contents)
    requires 0 < pool.elementSize && forall d :: d in dirs ==> d < pool.bufLength
    requires DirsFit(dirs, c) && DirsFit(dirs', c') && forall d :: d in dirs' ==> d in dirs && dirs[d] == dirs'[d]
    ensures HandlesOf(pool, dirs') == Surviving(HandlesOf(pool, dirs), c')
  {
    hide HandlesOf, LinkedBuffer.Elem;
    var a, b := HandlesOf(pool, dirs'), Surviving(HandlesOf(pool, dirs), c');
    forall p | p in a
      ensures p in b && a[p] == b[p]
    {
      var d := HandleOf(pool, dirs', p);
      HandleFor(pool, dirs, d);
    }
    forall p | p in b
      ensures p in a
    {
      var d := HandleOf(pool, dirs, p);
      if d != ROOT {
        var e :| e in dirs' && e != ROOT && dirs'[e] == dirs[d];
      }
      HandleFor(pool, dirs', d);
    }
  }

  lemma HandlesTell(pool: LinkedBuffer, dirs: map<nat, u16>, c: Contents, max: u16, mountable: bool)
    requires 0 < pool.elementSize && forall d :: d in dirs ==> d < pool.bufLength && dirs[d] <= max
    requires DirsFit(dirs, c)
    ensures HandlesFit(State(c, HandlesOf(pool, dirs), max, mountable))
  {
    HandlesAre(pool, dirs);
    hide HandlesOf, LinkedBuffer.Elem;
    var h := HandlesOf(pool, dirs);
    assert pool.Elem(ROOT) in h && h[pool.Elem(ROOT)] == 0;
    forall id | Dir(id) in c
      ensures id > 0 && exists p :: p in h && h[p] == id
    {
      var d :| d in dirs && d != ROOT && dirs[d] == id;
      assert h[pool.Elem(d)] == id;
    }
    forall p, q | p in h && q in h && h[p] == h[q]
      ensures p == q
    {
      var d :| d in dirs && p == pool.Elem(d) && h[p] == dirs[d];
      var e :| e in dirs && q == pool.Elem(e) && h[q] == dirs[e];
    }
  }

  ghost function Abstract(fs: TinyFs): State
    reads fs, fs.st, fs.st.log, fs.st.tab
  {
    State(fs.Files(), HandlesOf(fs.st.tab.pool, fs.Dirs()), fs.dir_id_max, MayRemount(fs.st.log))
  }

  // What the directories' nodes tell about handles
  lemma Known(fs: TinyFs)
    requires fs.Valid()
    ensures 0 < fs.st.tab.pool.elementSize && DirsFit(fs.Dirs(), fs.Files())
    ensures forall d :: d in fs.Dirs() ==> d < fs.st.tab.pool.bufLength && fs.Dirs()[d] <= fs.dir_id_max
    ensures fs.st.tab.pool.bufLength == POOL && Sum(fs.st.tab.list) == Weight(fs.Files())
  {
    hide Store.Valid, Store.Roomy, TinyFs.Sound, DirsFit;
    DirsFitFiles(fs);
    WeightOf(fs);
    forall d | d in fs.Dirs()
      ensures d < POOL && fs.Dirs()[d] <= fs.dir_id_max
    {
      DirBounds(fs, d);
    }
  }

  lemma DirBounds(fs: TinyFs, d: nat)
    requires fs.Sound() && d in fs.Dirs()
    ensures d < POOL && fs.Dirs()[d] <= fs.dir_id_max
  {
    hide TinyFs.Sound;
    fs.ParentId(d);
    hide *;
    NodesCount(fs);
  }

  lemma NodesCount(fs: TinyFs)
    requires fs.Sound()
    ensures |fs.st.tab.nodes| == POOL
  {
    hide IndexOk, TreeOk, Parented, Meaningful, ListsOk;
  }

  lemma DirsFitFiles(fs: TinyFs)
    requires fs.Sound()
    ensures DirsFit(fs.Dirs(), fs.Files())
  {
    fs.DirsAreFiles();
    hide IndexOk, Parented, Meaningful, ListsOk, Chains, Homes;
    forall d, e | d in fs.Dirs() && e in fs.Dirs() && fs.Dirs()[d] == fs.Dirs()[e]
      ensures d == e
    {
      SameDir(fs.st.tab.nodes, fs.st.tab.lst, fs.st.who, fs.st.key, fs.st.live, fs.kids, fs.dir_id_max, d, e);
    }
    assert ROOT in fs.Dirs();
  }

  lemma WeightOf(fs: TinyFs)
    requires fs.Sound()
    ensures Sum(fs.st.tab.list) == Weight(fs.Files())
  {
    hide IndexOk, TreeOk, Parented, Meaningful, ListsOk, Weight;
    SumIsWeight(fs.st.tab.nodes, fs.st.tab.list, fs.st.tab.lst, fs.st.who, fs.st.key, fs.st.live);
  }

  // Every file system is a state in which the invariant holds.
  lemma AbstractOk(fs: TinyFs)
    requires fs.Valid()
    ensures StateOk(Abstract(fs))
  {
    hide TinyFs.Valid, HandlesOf, MayRemount, DirsFit, HandlesFit, Closed;
    Known(fs);
    HandlesTell(fs.st.tab.pool, fs.Dirs(), fs.Files(), fs.dir_id_max, MayRemount(fs.st.log));
    ContentsOk(fs);
    if N == 3 {
      ThreeSectionsMount(fs);
    }
  }

  lemma ContentsOk(fs: TinyFs)
    requires fs.Valid()
    ensures Closed(fs.Files()) && |fs.Files()| <= POOL - 1
    ensures forall k :: k in fs.Files() ==> KeyOf(fs.Files()[k]) == k
  {
    hide Closed, Meaningful, LogOk, LogStore.Valid, IndexOk, TreeOk, Parented, ListsOk, TinyFs.Housed;
    MeaningLeft(fs);
    fs.CountFiles();
    fs.st.Parts();
  }

  // ---- What a caller checks before a call ----

  // A pointer is a handle of the file system just when it is one of its state.
  lemma Lookup(fs: TinyFs, dir: Pointer)
    requires fs.Valid()
    ensures fs.NoHandle(dir) <==> dir !in Abstract(fs).handles
    ensures dir in Abstract(fs).handles ==> exists d :: fs.Handle(dir, d)
    ensures forall d :: fs.Handle(dir, d) ==> d in fs.Dirs() && dir in Abstract(fs).handles && Abstract(fs).handles[dir] == fs.Dirs()[d]
  {
    hide Store.Valid, Store.Roomy, TinyFs.Sound, DirsFit, HandlesOf;
    Known(fs);
    KidsAreDirs(fs);
    HandlesAre(fs.st.tab.pool, fs.Dirs());
    if dir in Abstract(fs).handles {
      var d := HandleOf(fs.st.tab.pool, fs.Dirs(), dir);
      assert fs.Handle(dir, d);
    }
  }

  lemma KidsAreDirs(fs: TinyFs)
    requires fs.Sound()
    ensures fs.kids.Keys == fs.Dirs().Keys
  {
    hide IndexOk, Parented, Meaningful, ListsOk, Chains, Homes;
    forall d | d in fs.kids
      ensures d in fs.Dirs()
    {
      DirIsNode(fs.st.tab.nodes, fs.st.key.Keys, fs.kids, d);
    }
  }

  // The record that is there already, if there is one, gives up its bytes.
  method CheckWrite(fs: TinyFs, dir: Pointer, name: u16, data: Payload) returns (may: bool)
    requires fs.Valid()
    ensures may <==> Allowed(Abstract(fs), Write(dir, name, data))
  {
    hide TinyFs.Sound, Store.Valid, TinyFs.HousedAs, Store.Roomy, HandlesOf, MayRemount, DirsFit, Weight;
    Known(fs);
    Lookup(fs, dir);
    var exist, d := fs.IfDirExist(dir);
    if !exist {
      assert fs.NoHandle(dir);
      return data != [];
    }
    assert fs.Handle(dir, d);
    var record, _, i := fs.FindRecord(d, name);
    var given := 0;
    if record != NIL {
      RecordLength(fs, d, record, i);
      given := fs.st.tab.nodes[record].Length();
    }
    fs.IsDirectory(d);
    may := data != [] && fs.RoomFor(|data| + 11 - 2 * given);
  }

  lemma RecordLength(fs: TinyFs, d: nat, x: nat, i: nat)
    requires fs.Sound() && d in fs.kids && i < |fs.kids[d]| && fs.kids[d][i] == x && x in fs.st.key
    ensures x < |fs.st.tab.nodes| && fs.st.tab.nodes[x].Length() == Replaced(fs.Files(), fs.st.key[x])
  {
    hide IndexOk, TreeOk, Parented, Meaningful, ListsOk;
    RecordIs(fs.st.tab.nodes, fs.st.tab.lst, fs.st.who, fs.st.key, fs.st.live, fs.kids, fs.dir_id_max, d, x);
  }

  // How many sections are in use, and how many of them the search for the ends walks over.
  function InUse(head: nat, tail: nat): nat
    requires head < N && tail < N
  {
    if tail >= head then tail - head + 1 else N + tail - head + 1
  }

  function Searched(head: nat, tail: nat): nat { if tail >= head then tail - head + 1 else tail + 1 }

  // The ends of the log are found exactly when there are two sections or the count has not wrapped between
  // the section in the lowest slot and the tail.
  lemma CountTells(lo: nat, end: nat)
    requires lo < end <= lo + N
    ensures var head, tail := Phys(lo), Phys(end - 1);
            InUse(head, tail) == end - lo
            && (Discoverable(lo, end - lo) <==> InUse(head, tail) == 2 || end % 0x1_0000 + 1 >= Searched(head, tail))
  {
    var n := end - lo;
    PhysShift(lo, n - 1);
    var f, m := Lowest(lo, n), Searched(Phys(lo), Phys(end - 1));
    hide Phys;
    assert f == end - m;
    if end % 0x1_0000 + 1 >= m {
      forall w: nat | f <= w
        ensures !WrapsAt(lo, n, w)
      {
        NoWrapNear(end, w);
      }
    } else {
      var w := end - 2 - end % 0x1_0000;
      WrapsThere(end);
      assert WrapsAt(lo, n, w) && w >= f;
    }
  }

  // Between section w and the last, the counts go on from one to the next.
  lemma NoWrapNear(end: nat, w: nat)
    requires w + 1 >= end || end - 1 - w <= end % 0x1_0000
    ensures w + 1 < end ==> LoopCount(w) != 0xffff
  {
    if w + 1 < end {
      var j, t := end - 1 - w, end % 0x1_0000;
      var q := end / 0x1_0000;
      assert w + 1 == 0x1_0000 * q + (t - j);
    }
  }

  lemma WrapsThere(end: nat)
    requires end % 0x1_0000 + 2 <= end
    ensures LoopCount(end - 2 - end % 0x1_0000) == 0xffff
  {
    var q := end / 0x1_0000;
    assert end - 1 - end % 0x1_0000 == 0x1_0000 * (q - 1) + 0xffff;
  }

  // A ring as free as a new one holds no more than the header of one section.
  lemma FreeTells(h: History, lo: nat)
    requires Wf(h) && (h == [] ==> lo == 0) && (h != [] ==> lo < |h| <= lo + N)
    ensures h == [] ==> Free(h, lo) == N * C
    ensures Free(h, lo) == N * C && h != [] ==> |h| == lo + 1 && Discoverable(lo, 1)
  {
    if h != [] {
      var n := |h| - lo;
      assert S - TailOffset(h) <= C;
      Shared(C, N, n);
      if n >= 2 {
        Doubles(C, n);
      }
    }
  }

  lemma Shared(c: nat, m: nat, n: nat)
    ensures c * (m - n) == c * m - c * n
  {
  }

  method CheckCount(fs: TinyFs) returns (may: bool)
    requires fs.Valid()
    ensures may <==> MayRemount(fs.st.log)
  {
    hide TinyFs.Valid, LogStore.Valid, Phys, Discoverable, InUse, Searched, Wf, Free;
    RoomLeft(fs);
    FieldsOf(fs.st.log);
    fs.st.log.IsWf();
    FreeTells(fs.st.log.h, fs.st.log.lo);
    if fs.st.log.h != [] {
      CountTells(fs.st.log.lo, |fs.st.log.h|);
    }
    var log := fs.st.log;
    may := log.free_bytes == N * C || InUse(log.head_section, log.tail_section) == 2
           || log.tail_count + 1 >= Searched(log.head_section, log.tail_section);
  }

  // ---- Runs ----

  method DoMkdir(fs: TinyFs, upper: Pointer, name: u16) returns (a: Answer)
    requires fs.Valid() && fs.RoomFor(9)
    modifies fs.Repr(), fs.st.log.cache.nvm
    ensures fs.Valid() && MkdirStep(old(Abstract(fs)), upper, name, a, Abstract(fs))
  {
    hide TinyFs.Sound, Store.Valid, TinyFs.HousedAs, Store.Roomy, HasDir, HandlesOf, MayRemount, DirsFit;
    ghost var pool, dirs := fs.st.tab.pool, fs.Dirs();
    Known(fs);
    Lookup(fs, upper);
    var made, error, d, x := fs.Mkdir(upper, name);
    match error
    case NoError =>
      HandlesPut(pool, dirs, x, fs.dir_id_max);
      a := Made(made);
    case DirKeyAlreadyExisted =>
      HandleFor(pool, dirs, x);
      a := Already(made);
    case _ =>
      a := Failed(error);
  }

  method DoWrite(fs: TinyFs, dir: Pointer, name: u16, data: Payload) returns (a: Answer)
    requires fs.Valid() && Allowed(Abstract(fs), Write(dir, name, data))
    modifies fs.Repr(), fs.st.log.cache.nvm
    ensures fs.Valid() && WriteStep(old(Abstract(fs)), dir, name, data, a, Abstract(fs))
  {
    hide TinyFs.Sound, Store.Valid, TinyFs.HousedAs, Store.Roomy, HandlesOf, MayRemount, DirsFit, Weight;
    Known(fs);
    Lookup(fs, dir);
    var error, d := fs.Write(dir, name, data);
    a := if error == NoError then Done else Failed(error);
  }

  method DoRead(fs: TinyFs, dir: Pointer, name: u16, length: nat) returns (a: Answer)
    requires fs.Valid()
    ensures ReadStep(Abstract(fs), dir, name, length, a)
  {
    hide TinyFs.Sound, Store.Valid, TinyFs.HousedAs, Store.Roomy, HandlesOf, MayRemount;
    Lookup(fs, dir);
    var data, error, d := fs.Read(dir, name, length);
    a := if error == NoError then Data(data) else Failed(error);
  }

  method DoExist(fs: TinyFs, dir: Pointer, name: u16) returns (a: Answer)
    requires fs.Valid()
    ensures var s := Abstract(fs); a == Found(dir in s.handles && Rec(s.handles[dir], name) in s.files)
  {
    hide TinyFs.Sound, Store.Valid, TinyFs.HousedAs, Store.Roomy, HandlesOf, MayRemount;
    Lookup(fs, dir);
    var exist := fs.RecordExist(dir, name);
    a := Found(exist);
  }

  method DoDelRecord(fs: TinyFs, dir: Pointer, name: u16) returns (a: Answer)
    requires fs.Valid() && fs.RoomFor(7)
    modifies fs.Repr(), fs.st.log.cache.nvm
    ensures fs.Valid() && DelRecordStep(old(Abstract(fs)), dir, name, a, Abstract(fs))
  {
    hide TinyFs.Sound, Store.Valid, TinyFs.HousedAs, Store.Roomy, HandlesOf, MayRemount;
    ghost var c := fs.Files();
    Lookup(fs, dir);
    var error, d := fs.DelRecord(dir, name);
    a := if error == NoError then Done else Failed(error);
    assert forall k :: k !in c ==> c - {k} == c;
  }

  method DoDelDir(fs: TinyFs, dir: Pointer, force: bool) returns (a: Answer)
    requires fs.Valid() && fs.RoomFor(7) && dir != fs.st.tab.pool.Elem(ROOT)
    modifies fs.Repr(), fs.st.log.cache.nvm
    ensures fs.Valid() && DelDirStep(old(Abstract(fs)), dir, force, a, Abstract(fs))
  {
    hide TinyFs.Sound, Store.Valid, TinyFs.HousedAs, Store.Roomy, HandlesOf, MayRemount, DirsFit, Below, Surviving;
    ghost var pool, dirs, c := fs.st.tab.pool, fs.Dirs(), fs.Files();
    Known(fs);
    Lookup(fs, dir);
    var error, d := fs.DelDir(dir, force);
    Known(fs);
    if error == NoError {
      HandlesSurvive(pool, dirs, fs.Dirs(), c, fs.Files());
      a := Done;
    } else {
      SameDirsAgain(dirs, fs.Dirs(), c);
      a := Failed(error);
    }
  }

  // No directory has gone if its entry has not.
  lemma SameDirsAgain(dirs: map<nat, u16>, dirs': map<nat, u16>, c: Contents)
    requires DirsFit(dirs, c) && DirsFit(dirs', c) && forall d :: d in dirs' ==> d in dirs && dirs[d] == dirs'[d]
    ensures dirs' == dirs
  {
    forall d | d in dirs
      ensures d in dirs'
    {
      if d != ROOT {
        var e :| e in dirs' && e != ROOT && dirs'[e] == dirs[d];
      }
    }
  }

  method DoWriteThrough(fs: TinyFs) returns (a: Answer)
    requires fs.Valid()
    modifies fs.Repr(), fs.st.log.cache.nvm
    ensures fs.Valid() && Abstract(fs) == old(Abstract(fs)) && a == Done
  {
    hide TinyFs.Valid, HandlesOf, Discoverable;
    var _ := fs.WriteThrough();
    a := Done;
  }

  method DoPowerCycle(fs: TinyFs) returns (next: TinyFs, a: Answer)
    requires fs.Valid() && MayRemount(fs.st.log)
    modifies fs.Repr(), fs.st.log.cache.nvm
    ensures fresh(next.Repr()) && next.st.log.cache.nvm == fs.st.log.cache.nvm
    ensures next.Valid() && PowerCycleStep(old(Abstract(fs)), a, Abstract(next))
  {
    hide TinyFs.Valid, HandlesOf, Discoverable, HandlesFit, Closed;
    next := Remount(fs);
    AbstractOk(next);
    a := Done;
  }

  // The root's handle stands for the id 0, and no other does.
  lemma RootHandle(fs: TinyFs, dir: Pointer)
    requires fs.Valid()
    ensures dir != fs.st.tab.pool.Elem(ROOT) <==> (dir in Abstract(fs).handles ==> Abstract(fs).handles[dir] != 0)
  {
    hide Store.Valid, Store.Roomy, TinyFs.Sound, HandlesOf, MayRemount;
    Known(fs);
    HandleFor(fs.st.tab.pool, fs.Dirs(), ROOT);
    if dir in Abstract(fs).handles {
      var d := HandleOf(fs.st.tab.pool, fs.Dirs(), dir);
    }
  }

  lemma RoomIs(fs: TinyFs, size: int)
    requires fs.Valid()
    ensures fs.RoomFor(size) <==> Fits(fs.Files(), size)
  {
    hide Store.Valid, Store.Roomy, TinyFs.Sound, DirsFit, Weight;
    Known(fs);
  }

  // One operation, preceded by the caller's check
  method Do(fs: TinyFs, op: Op) returns (next: TinyFs, a: Answer)
    requires fs.Valid()
    modifies fs.Repr(), fs.st.log.cache.nvm
    ensures next.Valid() && (next == fs || fresh(next.Repr())) && next.st.log.cache.nvm == fs.st.log.cache.nvm
    ensures Step(old(Abstract(fs)), op, a, Abstract(next))
  {
    hide TinyFs.Valid, Fits, TinyFs.RoomFor, MayRemount, Abstract, Weight, HandlesFit;
    hide MkdirStep, WriteStep, ReadStep, DelRecordStep, DelDirStep, PowerCycleStep;
    next, a := fs, Skipped;
    StateOf(fs);
    match op
    case Mkdir(upper, name) =>
      RoomIs(fs, 9);
      if fs.RoomFor(9) {
        a := DoMkdir(fs, upper, name);
      }
    case Write(dir, name, data) =>
      var may := CheckWrite(fs, dir, name, data);
      if may {
        a := DoWrite(fs, dir, name, data);
      }
    case Read(dir, name, length) =>
      a := DoRead(fs, dir, name, length);
    case Exist(dir, name) =>
      a := DoExist(fs, dir, name);
    case DelRecord(dir, name) =>
      RoomIs(fs, 7);
      if fs.RoomFor(7) {
        a := DoDelRecord(fs, dir, name);
      }
    case DelDir(dir, force) =>
      RoomIs(fs, 7);
      RootHandle(fs, dir);
      if fs.RoomFor(7) && dir != fs.st.tab.pool.Elem(ROOT) {
        a := DoDelDir(fs, dir, force);
      }
    case WriteThrough =>
      a := DoWriteThrough(fs);
    case PowerCycle =>
      var may := CheckCount(fs);
      if may {
        next, a := DoPowerCycle(fs);
      }
  }

  lemma StateOf(fs: TinyFs)
    ensures Abstract(fs).files == fs.Files() && Abstract(fs).mountable == MayRemount(fs.st.log)
  {
  }

  // Any run at all is a run of the machine: each state, answer and next state is one of its steps.
  method Run(fs: TinyFs, ops: seq<Op>) returns (last: TinyFs, answers: seq<Answer>, ghost states: seq<State>)
    requires fs.Valid()
    modifies fs.Repr(), fs.st.log.cache.nvm
    ensures last.Valid() && last.st.log.cache.nvm == fs.st.log.cache.nvm
    ensures Steps(states, ops, answers) && states[0] == old(Abstract(fs)) && states[|ops|] == Abstract(last)
    ensures forall i :: 0 <= i <= |ops| ==> StateOk(states[i])
  {
    hide TinyFs.Valid, Step, Steps, Abstract, StateOk;
    AbstractOk(fs);
    last, answers, states := fs, [], [Abstract(fs)];
    NoSteps(states);
    assert ops[..0] == [];
    for i := 0 to |ops|
      invariant last == fs || fresh(last.Repr())
      invariant last.Valid() && last.st.log.cache.nvm == fs.st.log.cache.nvm && |states| == i + 1
      invariant Steps(states, ops[..i], answers) && states[0] == old(Abstract(fs)) && states[i] == Abstract(last)
      invariant forall j :: 0 <= j <= i ==> StateOk(states[j])
    {
      var a;
      last, a := Do(last, ops[i]);
      AbstractOk(last);
      StepsOneMore(states, ops, answers, i, a, Abstract(last));
      answers, states := answers + [a], states + [Abstract(last)];
    }
    assert ops[..|ops|] == ops;
    StepsCount(states, ops, answers);
  }

  lemma NoSteps(states: seq<State>)
    requires |states| == 1
    ensures Steps(states, [], [])
  {
  }

  lemma StepsCount(states: seq<State>, ops: seq<Op>, answers: seq<Answer>)
    requires Steps(states, ops, answers)
    ensures |states| == |ops| + 1 && |answers| == |ops|
  {
  }

  // The same from a flash that is erased: the machine starts with the root alone.
  method RunFromBlank(flash: Flash, ops: seq<Op>) returns (last: TinyFs, answers: seq<Answer>, ghost states: seq<State>)
    requires flash.Valid() && SlotBase(N) <= |flash.mem|
    requires forall a :: 0 <= a < |flash.mem| ==> flash.mem[a] == ERASED && !flash.programmed[a]
    modifies flash
    ensures last.Valid() && last.st.log.cache.nvm == flash
    ensures Steps(states, ops, answers) && states[|ops|] == Abstract(last)
    ensures forall p :: p in states[0].handles ==> states[0].handles[p] == 0
    ensures states[0].files == map[] && states[0].greatest == 0 && states[0].mountable
    ensures forall i :: 0 <= i <= |ops| ==> StateOk(states[i])
  {
    hide TinyFs.Valid, Steps, Image, StateOk, MaxDirId, Flat, HandlesOf;
    BlankIsImage(flash);
    var fs := new TinyFs(flash);
    TinyfsInit(fs, [], 0, [], map[]);
    NoEntries();
    AbstractOk(fs);
    OnlyRoot(Abstract(fs));
    last, answers, states := Run(fs, ops);
    StepsCount(states, ops, answers);
  }

  lemma OnlyRoot(s: State)
    requires StateOk(s) && s.files == map[]
    ensures forall p :: p in s.handles ==> s.handles[p] == 0
  {
    hide Closed;
  }

  lemma NoEntries()
    ensures EntriesOf(map[]) == map[] && MaxDirId(Flat([], 0)) == 0
  {
  }
}
