/** The inverse of the decoder: laying change records out as the chain of
    `FILE_NOTIFY_INFORMATION` records the system writes, and the round trip
    from records to buffer and back. */
module Layout {
  import opened Base
  import opened Types
  import opened WinUtil
  import Utf16
  import opened Watch

  /** Cells one laid-out record takes: the header and the encoded name. */
  function RecordCells(fni: FileNotifyInformation): nat {
    HeaderCells + |Utf16.Encode(fni.filename)|
  }

  /** Every record's byte length fits a `u32` next-entry offset. */
  ghost predicate Fits(records: seq<FileNotifyInformation>)
    decreases |records|
  {
    records == [] || (2 * RecordCells(records[0]) < 0x1_0000_0000 && Fits(records[1..]))
  }

  /** The header of a record: next-entry offset, action code and name byte
      length, each as a little-endian `u32` in two cells, low half first. */
  function Header(nextBytes: U32, action: U32, nameBytes: U32): (r: seq<U16>)
    ensures |r| == HeaderCells
  {
    [nextBytes % 0x1_0000, nextBytes / 0x1_0000,
     action % 0x1_0000, action / 0x1_0000,
     nameBytes % 0x1_0000, nameBytes / 0x1_0000]
  }

  /** One record with byte next-entry offset `nextBytes`: the header, then the
      UTF-16 name. */
  function LayoutRecord(fni: FileNotifyInformation, nextBytes: U32): (r: seq<U16>)
    requires 2 * RecordCells(fni) < 0x1_0000_0000
    ensures |r| == RecordCells(fni)
  {
    var units := Utf16.Encode(fni.filename);
    Header(nextBytes, Discriminant(fni.action), 2 * |units|) + units
  }

  /** A whole batch: each record points to the one after it, the last has a
      next-entry offset of 0. */
  function Layout(records: seq<FileNotifyInformation>): seq<U16>
    requires Fits(records)
    decreases |records|
  {
    if records == [] then []
    else
      var next := if |records| == 1 then 0 else 2 * RecordCells(records[0]);
      LayoutRecord(records[0], next) + Layout(records[1..])
  }

  /** A laid-out record is a record, wherever it sits in the buffer. */
  lemma RecordAtLayout(v: seq<U16>, p: nat, fni: FileNotifyInformation, nextBytes: U32)
    requires 2 * RecordCells(fni) < 0x1_0000_0000
    requires p + RecordCells(fni) <= |v| && v[p .. p + RecordCells(fni)] == LayoutRecord(fni, nextBytes)
    ensures RecordAt(v, p, nextBytes / 2, fni)
  {
    var units := Utf16.Encode(fni.filename);
    var cells := LayoutRecord(fni, nextBytes);
    assert forall k :: 0 <= k < |cells| ==> v[p + k] == cells[k];
    assert v[p] == cells[0] && v[p + 1] == cells[1];
    assert v[p + 2] == cells[2] && v[p + 3] == cells[3];
    assert v[p + 4] == cells[4] && v[p + 5] == cells[5];
    ToU32LeOfHalves(v, p, nextBytes);
    ToU32LeOfHalves(v, p + 2, Discriminant(fni.action));
    ToU32LeOfHalves(v, p + 4, 2 * |units|);
    assert cells[HeaderCells..] == units;
    assert v[p + HeaderCells .. p + HeaderCells + |units|] == cells[HeaderCells..];
  }

  /** The first record of a laid-out batch, and the batch after it. */
  lemma LayoutFirst(records: seq<FileNotifyInformation>)
    requires |records| > 0 && Fits(records)
    ensures 2 * RecordCells(records[0]) < 0x1_0000_0000 && Fits(records[1..])
    ensures Layout(records) ==
      LayoutRecord(records[0], if |records| == 1 then 0 else 2 * RecordCells(records[0])) + Layout(records[1..])
  {
  }

  /** The cell offsets at which the records of a batch laid out at `start` begin. */
  function LayoutOffsets(start: nat, records: seq<FileNotifyInformation>): (r: seq<nat>)
    ensures |r| == |records|
    ensures |records| > 0 ==> r[0] == start
    decreases |records|
  {
    if records == [] then [] else [start] + LayoutOffsets(start + RecordCells(records[0]), records[1..])
  }

  /** The records of a batch lie one after another from cell `p` of `v`, each
      laid out as `LayoutRecord` lays it out. */
  ghost predicate LaidOutAt(v: seq<U16>, p: nat, records: seq<FileNotifyInformation>)
    decreases |records|
  {
    && |records| > 0
    && 2 * RecordCells(records[0]) < 0x1_0000_0000
    && p + RecordCells(records[0]) <= |v|
    && v[p .. p + RecordCells(records[0])]
       == LayoutRecord(records[0], if |records| == 1 then 0 else 2 * RecordCells(records[0]))
    && (|records| > 1 ==> LaidOutAt(v, p + RecordCells(records[0]), records[1..]))
  }

  /** The record of `LaidOutAt` at `p` is a record in the sense of the decoder. */
  lemma LaidOutFirst(v: seq<U16>, p: nat, records: seq<FileNotifyInformation>)
    requires LaidOutAt(v, p, records)
    ensures RecordAt(v, p, if |records| == 1 then 0 else RecordCells(records[0]), records[0])
  {
    RecordAtLayout(v, p, records[0], if |records| == 1 then 0 else 2 * RecordCells(records[0]));
  }

  /** Records laid out one after another are a chain of exactly those records. */
  lemma {:induction false} LaidOutIsChain(v: seq<U16>, p: nat, records: seq<FileNotifyInformation>)
    requires LaidOutAt(v, p, records)
    ensures IsChain(v, LayoutOffsets(p, records), records)
    decreases |records|
  {
    if |records| == 1 {
      assert records[1..] == [];
      assert LayoutOffsets(p, records) == [p];
      LaidOutFirst(v, p, records);
    } else {
      var q := p + RecordCells(records[0]);
      assert LayoutOffsets(p, records) == [p] + LayoutOffsets(q, records[1..]);
      assert records == [records[0]] + records[1..];
      LaidOutIsChain(v, q, records[1..]);
      LaidOutFirst(v, p, records);
      ChainCons(v, p, RecordCells(records[0]), records[0], LayoutOffsets(q, records[1..]), records[1..]);
    }
  }

  /** Where `a + b` sits at cell `p` of `v`, `a` sits at `p` and `b` right after it. */
  lemma SplitSlice(v: seq<U16>, p: nat, a: seq<U16>, b: seq<U16>)
    requires p + |a| + |b| <= |v| && v[p .. p + |a| + |b|] == a + b
    ensures v[p .. p + |a|] == a
    ensures v[p + |a| .. p + |a| + |b|] == b
  {
    var w := v[p .. p + |a| + |b|];
    assert v[p .. p + |a|] == w[..|a|] && w[..|a|] == a;
    assert v[p + |a| .. p + |a| + |b|] == w[|a|..] && w[|a|..] == b;
  }

  /** A record laid out at `p` in front of a batch laid out after it. */
  lemma LaidOutCons(v: seq<U16>, p: nat, records: seq<FileNotifyInformation>)
    requires |records| > 1 && 2 * RecordCells(records[0]) < 0x1_0000_0000
    requires p + RecordCells(records[0]) <= |v|
    requires v[p .. p + RecordCells(records[0])] == LayoutRecord(records[0], 2 * RecordCells(records[0]))
    requires LaidOutAt(v, p + RecordCells(records[0]), records[1..])
    ensures LaidOutAt(v, p, records)
  {
  }

  /** `Layout` lays records out one after another, wherever in a buffer the
      batch is placed. */
  lemma {:induction false} LayoutLaysOut(v: seq<U16>, p: nat, records: seq<FileNotifyInformation>)
    requires |records| > 0 && Fits(records)
    requires p + |Layout(records)| <= |v| && v[p .. p + |Layout(records)|] == Layout(records)
    ensures LaidOutAt(v, p, records)
    decreases |records|
  {
    LayoutFirst(records);
    var next := if |records| == 1 then 0 else 2 * RecordCells(records[0]);
    var cells := LayoutRecord(records[0], next);
    var rest := Layout(records[1..]);
    SplitSlice(v, p, cells, rest);
    if |records| > 1 {
      LayoutLaysOut(v, p + |cells|, records[1..]);
      LaidOutCons(v, p, records);
    }
  }

  /** The round trip: a batch laid out from cell 0, as `from_u16_slice` decodes
      the system's buffer, decodes to the same records in the same order;
      whatever the buffer holds after the batch is never read. */
  lemma RoundTrip(records: seq<FileNotifyInformation>, tail: seq<U16>)
    requires |records| > 0 && Fits(records)
    ensures Chain(Layout(records) + tail, 0) == Some(records)
  {
    SplitSlice(Layout(records) + tail, 0, Layout(records), tail);
    LayoutLaysOut(Layout(records) + tail, 0, records);
    LaidOutIsChain(Layout(records) + tail, 0, records);
    ChainComplete(Layout(records) + tail, LayoutOffsets(0, records), records);
  }

  /** One record: "a.txt" added. */
  lemma OneRecordBuffer()
    ensures Chain([0, 0, 1, 0, 10, 0, 'a' as U16, '.' as U16, 't' as U16, 'x' as U16, 't' as U16], 0)
            == Some([FileNotifyInformation(FileAdded, "a.txt")])
  {
    var fni := FileNotifyInformation(FileAdded, "a.txt");
    var units: seq<U16> := ['a' as U16, '.' as U16, 't' as U16, 'x' as U16, 't' as U16];
    assert Utf16.Encode("a.txt") == units;
    assert RecordCells(fni) == 11;
    assert Fits([fni]);
    assert LayoutRecord(fni, 0) == [0, 0, 1, 0, 10, 0] + units;
    assert Layout([fni]) == LayoutRecord(fni, 0) + [];
    RoundTrip([fni], []);
    var buffer: seq<U16> := [0, 0, 1, 0, 10, 0, 'a' as U16, '.' as U16, 't' as U16, 'x' as U16, 't' as U16];
    assert Layout([fni]) + [] == buffer;
  }
}
