// The nodes of the log as bytes (dev/module/tinyfs/tinyfs.c:34-91, 298-314, 423-512, 869-909).
module Codec {
  import opened Nor
  import opened Ring
  import opened Layout
  import Crc16

  type Payload = d: seq<byte> | |d| < 0x1_0000

  datatype Entry =
    | RecordAdd(name: u16, parent: u16, data: Payload)
    | DirAdd(name: u16, parent: u16, id: u16)
    | RecordRemove(name: u16, parent: u16)
    | DirRemove(id: u16)

  const METADATA_MAX := 9  // sizeof(record_add_t), the longest

  function Check(data: seq<byte>): u16 { Crc16.Ccitt(0x5555, data) }

  function RecordFields(name: u16, parent: u16, length: u16): seq<byte> {
    [0] + Le16(name) + Le16(parent) + Le16(length)
  }

  function Fields(e: Entry): seq<byte> {
    match e
    case RecordAdd(name, parent, data) => RecordFields(name, parent, |data|)
    case DirAdd(name, parent, id) => [1] + Le16(name) + Le16(parent) + Le16(id)
    case RecordRemove(name, parent) => [2] + Le16(name) + Le16(parent)
    case DirRemove(id) => [3] + Le16(id)
  }

  function Metadata(e: Entry): (b: seq<byte>)
    ensures |b| == MetadataLength(e)
  {
    Fields(e) + Le16(Check(Fields(e)))
  }

  // What follows the metadata of a node: a record's data and its check.
  function Body(e: Entry): (b: seq<byte>)
    ensures |b| == if e.RecordAdd? then |e.data| + 2 else 0
  {
    if e.RecordAdd? then e.data + Le16(Check(e.data)) else []
  }

  function Bytes(e: Entry): (b: seq<byte>)
    ensures |b| == Total(e)
  {
    Metadata(e) + Body(e)
  }

  function U16(buf: seq<byte>, i: nat): u16
    requires i + 1 < |buf|
  {
    (buf[i] as int) + 0x100 * (buf[i + 1] as int)
  }

  function MetadataLength(e: Entry): nat {
    match e
    case RecordAdd(_, _, _) => 9
    case DirAdd(_, _, _) => 9
    case RecordRemove(_, _) => 7
    case DirRemove(_) => 5
  }

  function Total(e: Entry): nat {
    MetadataLength(e) + if e.RecordAdd? then |e.data| + 2 else 0
  }

  lemma FieldsFirst(e: Entry)
    ensures var b, n := Bytes(e), MetadataLength(e);
            |b| >= n && b[..n - 2] == Fields(e) && U16(b, n - 2) == Crc16.Ccitt(0x5555, b[..n - 2]) && b[n..] == Body(e)
  {
    hide Crc16.Ccitt, Fields, Body;
    var b, n, f := Bytes(e), MetadataLength(e), Fields(e);
    assert Metadata(e) == f + Le16(Check(f)) && |f| == n - 2;
    assert b[..n - 2] == f;
    assert b[n - 2] == Le16(Check(f))[0] && b[n - 1] == Le16(Check(f))[1];
  }

  lemma FieldsLayout(e: Entry)
    ensures var f := Fields(e);
            match e
            case RecordAdd(name, parent, data) =>
              |f| == 7 && f[0] == 0 && U16(f, 1) == name && U16(f, 3) == parent && U16(f, 5) == |data|
            case DirAdd(name, parent, id) =>
              |f| == 7 && f[0] == 1 && U16(f, 1) == name && U16(f, 3) == parent && U16(f, 5) == id
            case RecordRemove(name, parent) =>
              |f| == 5 && f[0] == 2 && U16(f, 1) == name && U16(f, 3) == parent
            case DirRemove(id) => |f| == 3 && f[0] == 3 && U16(f, 1) == id
  {
  }

  lemma BodyLayout(e: Entry)
    requires e.RecordAdd?
    ensures var b, n := Body(e), |e.data|; |b| == n + 2 && b[..n] == e.data && U16(b, n) == Crc16.Ccitt(0x5555, e.data)
  {
    hide Crc16.Ccitt;
  }

  // The bytes of the four kinds of node, each number least byte first, and what their checks cover: the kind
  // and its fields, the check of them, and a record's data and the check of that.
  lemma NodeLayout(e: Entry)
    ensures var b, n := Bytes(e), MetadataLength(e);
            && n == (match e case RecordAdd(_, _, _) => 9 case DirAdd(_, _, _) => 9 case RecordRemove(_, _) => 7 case DirRemove(_) => 5)
            && |b| == n + (if e.RecordAdd? then |e.data| + 2 else 0)
            && b[0] == (match e case RecordAdd(_, _, _) => 0 case DirAdd(_, _, _) => 1 case RecordRemove(_, _) => 2 case DirRemove(_) => 3)
            && U16(b, 1) == (if e.DirRemove? then e.id else e.name)
            && (!e.DirRemove? ==> U16(b, 3) == e.parent)
            && (e.RecordAdd? ==> U16(b, 5) == |e.data|) && (e.DirAdd? ==> U16(b, 5) == e.id)
            && U16(b, n - 2) == Crc16.Ccitt(0x5555, b[..n - 2])
            && (e.RecordAdd? ==> b[9..9 + |e.data|] == e.data && U16(b, 9 + |e.data|) == Crc16.Ccitt(0x5555, e.data))
  {
    hide Crc16.Ccitt, Bytes, Fields, Body;
    var b, n := Bytes(e), MetadataLength(e);
    FieldsFirst(e);
    FieldsLayout(e);
    var f := Fields(e);
    assert forall i :: 0 <= i < n - 2 ==> b[i] == f[i];
    if e.RecordAdd? {
      BodyLayout(e);
      assert b[9..9 + |e.data|] == b[n..][..|e.data|];
      assert b[9 + |e.data|] == b[n..][|e.data|] && b[10 + |e.data|] == b[n..][|e.data| + 1];
    }
  }

  // ---- Data that has changed ----

  // A record's data that differs from what was written, but only within two adjacent bytes, fails its check.
  lemma ChangedDataFails(e: Entry, data: seq<byte>, i: nat)
    requires e.RecordAdd? && |data| == |e.data| && data != e.data && i < |data|
    requires forall j :: 0 <= j < |data| && j != i && j != i + 1 ==> data[j] == e.data[j]
    ensures U16(Body(e), |data|) != Check(data)
  {
    hide Crc16.Ccitt;
    if i + 1 < |data| {
      Crc16.CcittSeparates(0x5555, data, e.data, i);
    } else if i > 0 {
      Crc16.CcittSeparates(0x5555, data, e.data, i - 1);
    } else {
      assert data == [data[0]] && e.data == [e.data[0]];
      Crc16.CcittSeparatesOne(0x5555, data[0], e.data[0]);
    }
  }

  // Metadata that differs, but only within two adjacent bytes of the fields behind the kind, is not read.
  lemma ChangedMetadataIsUnreadable(e: Entry, buf: seq<byte>, i: nat)
    requires |buf| == METADATA_MAX && 0 < i && i + 1 < MetadataLength(e) - 2
    requires buf[i] != Metadata(e)[i] || buf[i + 1] != Metadata(e)[i + 1]
    requires forall j :: 0 <= j < MetadataLength(e) && j != i && j != i + 1 ==> buf[j] == Metadata(e)[j]
    ensures ReadHead(buf) == Unreadable
  {
    hide Crc16.Ccitt;
    var n, m := MetadataLength(e), Metadata(e);
    var f := buf[..n - 2];
    assert m[..n - 2] == Fields(e);
    assert f[i] == buf[i] && f[i + 1] == buf[i + 1] && Fields(e)[i] == m[i] && Fields(e)[i + 1] == m[i + 1];
    Crc16.CcittSeparates(0x5555, f, Fields(e), i);
    assert U16(m, n - 2) == Check(Fields(e)) == U16(buf, n - 2);
  }

  // ---- Reading metadata back ----

  // What the metadata says: all of the entry but a record's data.
  datatype Head =
    | RecordHead(name: u16, parent: u16, length: u16)
    | DirHead(name: u16, parent: u16, id: u16)
    | RecordGone(name: u16, parent: u16)
    | DirGone(id: u16)
    | Unreadable

  function HeadOf(e: Entry): Head {
    match e
    case RecordAdd(name, parent, data) => RecordHead(name, parent, |data|)
    case DirAdd(name, parent, id) => DirHead(name, parent, id)
    case RecordRemove(name, parent) => RecordGone(name, parent)
    case DirRemove(id) => DirGone(id)
  }

  function HeadTotal(head: Head): nat {
    match head
    case RecordHead(_, _, length) => METADATA_MAX + length + 2
    case DirHead(_, _, _) => 9
    case RecordGone(_, _) => 7
    case DirGone(_) => 5
    case Unreadable => 0
  }

  // node_metadata_read, with the field accesses of the four parsers
  function ReadHead(buf: seq<byte>): Head
    requires |buf| == METADATA_MAX
  {
    if buf[0] == 0 && U16(buf, 7) == Check(buf[..7]) then RecordHead(U16(buf, 1), U16(buf, 3), U16(buf, 5))
    else if buf[0] == 1 && U16(buf, 7) == Check(buf[..7]) then DirHead(U16(buf, 1), U16(buf, 3), U16(buf, 5))
    else if buf[0] == 2 && U16(buf, 5) == Check(buf[..5]) then RecordGone(U16(buf, 1), U16(buf, 3))
    else if buf[0] == 3 && U16(buf, 3) == Check(buf[..3]) then DirGone(U16(buf, 1))
    else Unreadable
  }

  // Metadata is read back whatever bytes follow a shorter node.
  lemma ReadHeadInverts(e: Entry, buf: seq<byte>)
    requires |buf| == METADATA_MAX && buf[..MetadataLength(e)] == Metadata(e)
    ensures ReadHead(buf) == HeadOf(e)
  {
    var n := MetadataLength(e);
    var f := Fields(e);
    var m := Metadata(e);
    assert buf[..n - 2] == m[..n - 2] == f;
    assert forall i :: 0 <= i < n ==> buf[i] == m[i];
    assert m[n - 2] == Le16(Check(f))[0] && m[n - 1] == Le16(Check(f))[1];
    hide Check;
    match e
    case RecordAdd(_, _, _) =>
    case DirAdd(_, _, _) =>
    case RecordRemove(_, _) =>
    case DirRemove(_) =>
  }

  // Erased bytes are never taken for a node.
  lemma ErasedIsUnreadable(buf: seq<byte>)
    requires |buf| == METADATA_MAX && buf[0] == ERASED
    ensures ReadHead(buf) == Unreadable
  {
  }

  lemma HeadKeepsLength(e: Entry)
    ensures HeadTotal(HeadOf(e)) == Total(e)
  {
  }

  // ---- Nodes in place ----

  datatype Item = Item(at: Addr, e: Entry)

  ghost predicate NodeAt(h: History, it: Item) {
    && Total(it.e) <= C
    && Present(h, it.at, Total(it.e))
    && BytesAt(h, it.at, Total(it.e)) == Bytes(it.e)
  }

  lemma NodeStays(h: History, h': History, it: Item)
    requires Wf(h) && Wf(h') && Grows(h, h') && NodeAt(h, it)
    ensures NodeAt(h', it)
  {
    BytesStay(h, h', it.at, Total(it.e));
  }

  // node_write of a whole node puts it at the cursor.
  lemma NodeAppended(h: History, e: Entry)
    requires Wf(h) && Total(e) <= C
    ensures NodeAt(Append(h, Bytes(e), true, 0), Item(Cursor(h), e))
  {
    AppendReads(h, Bytes(e), true, 0);
  }

  // The data and the check of a record, where node_data_read looks for them.
  lemma RecordReads(h: History, it: Item)
    requires Wf(h) && NodeAt(h, it) && it.e.RecordAdd?
    ensures var d := Advance(it.at, METADATA_MAX);
            && Present(h, d, |it.e.data|) && BytesAt(h, d, |it.e.data|) == it.e.data
            && var c := Advance(d, |it.e.data|);
               Present(h, c, 2) && BytesAt(h, c, 2) == Le16(Check(it.e.data))
  {
    hide Check, BytesAt, Fields, Metadata, Le16;
    var n := |it.e.data|;
    var b := Bytes(it.e);
    assert b[METADATA_MAX..METADATA_MAX + n] == it.e.data;
    assert b[METADATA_MAX + n..METADATA_MAX + n + 2] == Le16(Check(it.e.data));
    AdvanceTwice(it.at, METADATA_MAX, n);
    SliceOf(h, it.at, Total(it.e), METADATA_MAX, n);
    SliceOf(h, it.at, Total(it.e), METADATA_MAX + n, 2);
  }
}
