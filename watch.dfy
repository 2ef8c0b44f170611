/** The batch watcher of `src/watch.rs`: it owns a buffer of `u16` cells that
    `ReadDirectoryChangesW` fills with a chain of `FILE_NOTIFY_INFORMATION`
    records, and decodes that chain into change records. Each record at cell
    offset `o` is laid out as
      cells o, o+1     NextEntryOffset  (u32, bytes to the next record; 0 ends the chain)
      cells o+2, o+3   Action           (u32, 1..5)
      cells o+4, o+5   FileNameLength   (u32, in bytes)
      cells o+6 ...    FileName         (UTF-16 code units)
    `src/lib.rs` holds a second copy (`DirWatch`) of the same code. */
module Watch {
  import opened Base
  import opened Types
  import opened WinUtil
  import Utf16
  import Errors

  /** `FileNotifyInformation`: one decoded change record. */
  datatype FileNotifyInformation = FileNotifyInformation(action: FileAction, filename: string)

  /** `Display` of a record: the action, an arrow, the file name. */
  function DisplayRecord(fni: FileNotifyInformation): (r: string)
    ensures |r| > |fni.filename| + 4 && r[|r| - |fni.filename| ..] == fni.filename
  {
    Display(fni.action) + " -> " + fni.filename
  }

  /** Different records are displayed differently. */
  lemma DisplayRecordInjective(f: FileNotifyInformation, g: FileNotifyInformation)
    requires DisplayRecord(f) == DisplayRecord(g)
    ensures f == g
  {
    assert Display(f.action) + (" -> " + f.filename) == DisplayRecord(f);
    assert Display(g.action) + (" -> " + g.filename) == DisplayRecord(g);
    DisplayPrefixFree(f.action, g.action, " -> " + f.filename, " -> " + g.filename);
    assert f.filename == (" -> " + f.filename)[4..];
    assert g.filename == (" -> " + g.filename)[4..];
  }

  /** Number of cells in a record header (12 bytes). */
  const HeaderCells: nat := 6

  /** The cells of `v` at `o` hold a complete record whose halved
      next-entry offset is `next` and whose contents are `fni`: the header and the
      whole name lie inside `v`, the action field holds the code of `fni.action`
      and the name cells are the UTF-16 encoding of `fni.filename`. */
  ghost predicate RecordAt(v: seq<U16>, o: nat, next: nat, fni: FileNotifyInformation) {
    && o + HeaderCells <= |v|
    && ToU32Le(v, o) / 2 == next
    && ToU32Le(v, o + 2) == Discriminant(fni.action)
    && o + HeaderCells + ToU32Le(v, o + 4) / 2 <= |v|
    && v[o + HeaderCells .. o + HeaderCells + ToU32Le(v, o + 4) / 2] == Utf16.Encode(fni.filename)
  }

  /** `to_file_notify_information`: read the record at cell offset `offset`,
      giving its next-entry offset in cells (the byte offset halved, rounded
      down) and its contents. `None` is a panic: a header cell outside `v`, a name
      slice outside `v`, invalid UTF-16, or an action code outside 1..5. */
  function ToFileNotifyInformation(v: seq<U16>, offset: nat): (r: Option<(nat, FileNotifyInformation)>)
    ensures r.Some? ==> offset + HeaderCells <= |v|
  {
    if offset + HeaderCells > |v| then None
    else
      var nextEntryOffsetInU16 := ToU32Le(v, offset) / 2;
      var action := ToU32Le(v, offset + 2);
      var fileNameLengthInBytes := ToU32Le(v, offset + 4);
      match (ToFilename(v, offset + HeaderCells, fileNameLengthInBytes), FromU32(action))
      case (Some(filename), Some(a)) =>
        Some((nextEntryOffsetInU16, FileNotifyInformation(a, filename)))
      case _ => None
  }

  /** What `ToFileNotifyInformation` reads is a record laid out at `offset`. */
  lemma ToFileNotifyInformationSound(v: seq<U16>, o: nat)
    requires ToFileNotifyInformation(v, o).Some?
    ensures RecordAt(v, o, ToFileNotifyInformation(v, o).value.0, ToFileNotifyInformation(v, o).value.1)
  {
    ToFilenameMeaning(v, o + HeaderCells, ToU32Le(v, o + 4));
  }

  /** Whenever a record is there, it is what `ToFileNotifyInformation` reads. */
  lemma ToFileNotifyInformationComplete(v: seq<U16>, o: nat, next: nat, fni: FileNotifyInformation)
    requires RecordAt(v, o, next, fni)
    ensures ToFileNotifyInformation(v, o) == Some((next, fni))
  {
    var len := ToU32Le(v, o + 4);
    Utf16.DecodeEncode(fni.filename);
    Utf16.DecodeIsValid(Utf16.Encode(fni.filename));
    ToFilenameMeaning(v, o + HeaderCells, len);
    var name := ToFilename(v, o + HeaderCells, len);
    Utf16.EncodeInjective(name.value, fni.filename);
    FromU32OfDiscriminant(fni.action);
  }

  /** Prepend `p` to a decode outcome; a panic stays a panic. */
  function PrefixWith<T>(p: seq<T>, r: Option<seq<T>>): Option<seq<T>> {
    match r
    case None => None
    case Some(s) => Some(p + s)
  }

  lemma PrefixWithConcat<T>(p: seq<T>, q: seq<T>, r: Option<seq<T>>)
    ensures PrefixWith(p, PrefixWith(q, r)) == PrefixWith(p + q, r)
    ensures PrefixWith([], r) == r
  {
    if r.Some? {
      assert p + (q + r.value) == (p + q) + r.value;
      assert [] + r.value == r.value;
    }
  }

  /** The records of the chain that starts at cell `offset`, in chain order:
      the record there, then, unless its halved next-entry offset is 0, the
      chain that starts that many cells further on. */
  ghost function Chain(v: seq<U16>, offset: nat): (r: Option<seq<FileNotifyInformation>>)
    ensures r.Some? ==> |r.value| >= 1
    decreases |v| - offset
  {
    match ToFileNotifyInformation(v, offset)
    case None => None
    case Some((next, fni)) =>
      if next == 0 then Some([fni])
      else PrefixWith([fni], Chain(v, offset + next))
  }

  /** The walk from `start` has pushed `done` and goes on at `offset`: the
      records of the chain from `start` are `done` followed by those of the
      chain from `offset`, and a panic there is a panic of the whole walk. */
  ghost predicate Walked(v: seq<U16>, start: nat, done: seq<FileNotifyInformation>, offset: nat) {
    Chain(v, start) == PrefixWith(done, Chain(v, offset))
  }

  /** One step of the walk from `start` at `offset`, with `done` the records
      already pushed: a record pointing further on hands the rest of the walk
      to that offset. */
  lemma ChainAdvance(v: seq<U16>, start: nat, offset: nat, done: seq<FileNotifyInformation>,
                     next: nat, fni: FileNotifyInformation)
    requires Walked(v, start, done, offset)
    requires ToFileNotifyInformation(v, offset) == Some((next, fni)) && next > 0
    ensures Walked(v, start, done + [fni], offset + next)
  {
    assert Chain(v, offset) == PrefixWith([fni], Chain(v, offset + next));
    PrefixWithConcat(done, [fni], Chain(v, offset + next));
  }

  /** A record with a halved next-entry offset of 0 ends the walk. */
  lemma ChainStops(v: seq<U16>, start: nat, offset: nat, done: seq<FileNotifyInformation>, fni: FileNotifyInformation)
    requires Walked(v, start, done, offset)
    requires ToFileNotifyInformation(v, offset) == Some((0, fni))
    ensures Chain(v, start) == Some(done + [fni])
  {
  }

  /** A record that cannot be read panics the whole walk. */
  lemma ChainPanics(v: seq<U16>, start: nat, offset: nat, done: seq<FileNotifyInformation>)
    requires Walked(v, start, done, offset)
    requires ToFileNotifyInformation(v, offset).None?
    ensures Chain(v, start) == None
  {
  }

  /** `from_u16_slice`: walk the chain from cell 0, pushing each record, until
      a record's halved next-entry offset is 0. */
  method FromU16Slice(v: seq<U16>) returns (r: Option<seq<FileNotifyInformation>>)
    ensures r == Chain(v, 0)
    ensures r.Some? ==> |r.value| >= 1
  {
    var result: seq<FileNotifyInformation> := [];
    var offset: nat := 0;
    PrefixWithConcat(result, [], Chain(v, 0));
    while true
      invariant Walked(v, 0, result, offset)
      decreases |v| - offset
    {
      match ToFileNotifyInformation(v, offset)
      case None =>
        ChainPanics(v, 0, offset, result);
        return None;
      case Some((nextEntryOffset, fni)) =>
        if nextEntryOffset == 0 {
          ChainStops(v, 0, offset, result, fni);
          result := result + [fni];
          break;
        }
        ChainAdvance(v, 0, offset, result, nextEntryOffset, fni);
        result, offset := result + [fni], offset + nextEntryOffset;
    }
    r := Some(result);
  }

  /** `offsets` are the cell offsets of a chain holding `records`: a record
      sits at each offset, every record but the last points (by its halved
      next-entry offset) strictly forward to the next one, and the last has a
      halved next-entry offset of 0. */
  ghost predicate IsChain(v: seq<U16>, offsets: seq<nat>, records: seq<FileNotifyInformation>)
    decreases |offsets|
  {
    && |offsets| == |records| > 0
    && if |offsets| == 1 then RecordAt(v, offsets[0], 0, records[0])
       else
         && offsets[0] < offsets[1]
         && RecordAt(v, offsets[0], offsets[1] - offsets[0], records[0])
         && IsChain(v, offsets[1..], records[1..])
  }

  /** Every successful decode is such a chain: the records come out in chain
      order, the offsets strictly increase, all reads were inside `v`, and the
      walk stopped at the first record with a halved next-entry offset of 0. */
  lemma ChainSound(v: seq<U16>, o: nat)
    requires Chain(v, o).Some?
    ensures exists offsets :: |offsets| > 0 && offsets[0] == o && IsChain(v, offsets, Chain(v, o).value)
  {
    var offsets := ChainOffsets(v, o);
  }

  /** The offsets of the records a successful decode from `o` walks through. */
  lemma {:induction false} ChainOffsets(v: seq<U16>, o: nat) returns (offsets: seq<nat>)
    requires Chain(v, o).Some?
    ensures |offsets| > 0 && offsets[0] == o && IsChain(v, offsets, Chain(v, o).value)
    decreases |v| - o
  {
    var step := ToFileNotifyInformation(v, o).value;
    var next, fni := step.0, step.1;
    ToFileNotifyInformationSound(v, o);
    if next == 0 {
      assert Chain(v, o).value == [fni];
      offsets := [o];
      assert IsChain(v, offsets, [fni]);
    } else {
      assert Chain(v, o) == PrefixWith([fni], Chain(v, o + next));
      var os := ChainOffsets(v, o + next);
      ChainCons(v, o, next, fni, os, Chain(v, o + next).value);
      offsets := [o] + os;
      assert offsets[0] == o;
    }
  }

  /** A record pointing forward to a chain extends that chain. */
  lemma ChainCons(v: seq<U16>, o: nat, next: nat, fni: FileNotifyInformation,
                  os: seq<nat>, rest: seq<FileNotifyInformation>)
    requires next > 0 && RecordAt(v, o, next, fni)
    requires IsChain(v, os, rest) && os[0] == o + next
    ensures IsChain(v, [o] + os, [fni] + rest)
  {
    assert ([o] + os)[1..] == os && ([fni] + rest)[1..] == rest;
  }

  /** A record at `o` pointing forward to a decoded chain is decoded in front of it. */
  lemma ChainPrepend(v: seq<U16>, o: nat, next: nat, fni: FileNotifyInformation, rest: seq<FileNotifyInformation>)
    requires next > 0 && RecordAt(v, o, next, fni) && Chain(v, o + next) == Some(rest)
    ensures Chain(v, o) == Some([fni] + rest)
  {
    ToFileNotifyInformationComplete(v, o, next, fni);
    PrefixWithConcat([], [], Chain(v, o));
    ChainAdvance(v, o, o, [], next, fni);
    assert [] + [fni] == [fni];
  }

  /** The first link of a chain of several records, given the rest decoded. */
  lemma ChainCompleteStep(v: seq<U16>, offsets: seq<nat>, records: seq<FileNotifyInformation>)
    requires |offsets| > 1 && IsChain(v, offsets, records)
    requires Chain(v, offsets[1]) == Some(records[1..])
    ensures Chain(v, offsets[0]) == Some(records)
  {
    ChainPrepend(v, offsets[0], offsets[1] - offsets[0], records[0], records[1..]);
    assert records == [records[0]] + records[1..];
  }

  /** The last link of a chain. */
  lemma ChainCompleteLast(v: seq<U16>, offsets: seq<nat>, records: seq<FileNotifyInformation>)
    requires |offsets| == 1 && IsChain(v, offsets, records)
    ensures Chain(v, offsets[0]) == Some(records)
  {
    ToFileNotifyInformationComplete(v, offsets[0], 0, records[0]);
    assert records == [records[0]];
  }

  /** Conversely, any chain laid out in `v` is decoded, record for record. */
  lemma {:induction false} ChainComplete(v: seq<U16>, offsets: seq<nat>, records: seq<FileNotifyInformation>)
    requires IsChain(v, offsets, records)
    ensures Chain(v, offsets[0]) == Some(records)
    decreases |offsets|
  {
    if |offsets| == 1 {
      ChainCompleteLast(v, offsets, records);
    } else {
      ChainComplete(v, offsets[1..], records[1..]);
      ChainCompleteStep(v, offsets, records);
    }
  }

  /** A raw next-entry offset of 1 byte halves to 0 cells, so the record it
      belongs to ends the chain. */
  lemma OddByteOffsetEndsChain(v: seq<U16>, o: nat)
    requires o + HeaderCells <= |v| && ToU32Le(v, o) == 1
    requires ToFileNotifyInformation(v, o).Some?
    ensures Chain(v, o) == Some([ToFileNotifyInformation(v, o).value.1])
  {
  }

  /** What the watcher hands to `ReadDirectoryChangesW`: the buffer length in
      bytes, the `BOOL` subtree flag and the filter mask. */
  datatype ReadRequest = ReadRequest(bufferLengthInBytes: U32, watchSubtree: I32, notifyFilter: bv32)

  /** What `ReadDirectoryChangesW` does, which the model takes as given: the
      cells it writes from the start of the buffer, the `BOOL` it returns, and
      the code `GetLastError` then reports. */
  datatype ReadReply = ReadReply(written: seq<U16>, returned: I32, lastError: U32)

  /** `WinWatch`: a directory watcher owning a reusable buffer of `u16` cells. */
  class WinWatch {
    const watchSubdirs: bool
    const bufferSize: U32
    const resultsArr: array<U16>
    const notifyFilter: bv32

    /** The buffer holds exactly `bufferSize` cells. */
    ghost predicate Valid() {
      resultsArr.Length == bufferSize
    }

    /** `WinWatch::new`: a buffer of exactly `bufferSize` cells (their initial
        contents are unspecified) and the filter mask, computed once here. */
    constructor (notifyChanges: seq<FileNotifyChange>, watchSubdirs: bool, bufferSize: U32)
      ensures this.watchSubdirs == watchSubdirs && this.bufferSize == bufferSize
      ensures Valid() && fresh(resultsArr) && resultsArr.Length == bufferSize
      ensures notifyFilter == MaskOf(notifyChanges)
      ensures Represents(notifyFilter, Members(notifyChanges))
    {
      var mask := AsU32(notifyChanges);
      this.watchSubdirs := watchSubdirs;
      this.bufferSize := bufferSize;
      resultsArr := new U16[bufferSize];
      notifyFilter := mask;
    }

    /** The request `read_directory_changes` makes, or `None` when
        `buffer_size * 2` overflows a `u32` (a panic under checked arithmetic). */
    function Request(): (r: Option<ReadRequest>)
      requires Valid()
      ensures r.Some? <==> 2 * resultsArr.Length < 0x1_0000_0000
      ensures r.Some? ==> r.value.bufferLengthInBytes == 2 * resultsArr.Length
      ensures r.Some? ==> ToBool(r.value.watchSubtree) == Some(watchSubdirs)
      ensures r.Some? ==> r.value.notifyFilter == notifyFilter
    {
      if bufferSize * 2 < 0x1_0000_0000 then
        Some(ReadRequest(bufferSize * 2, FromBool(watchSubdirs), notifyFilter))
      else None
    }

    /** `watch` / `read_directory_changes`: make the request, let the system
        overwrite the front of the buffer, then decode the whole buffer from
        cell 0 when it reports success, or report its error code when it does
        not. The outer `None` is a panic. */
    method Watch(reply: ReadReply) returns (outcome: Option<Result>)
      requires Valid() && |reply.written| <= resultsArr.Length
      modifies resultsArr
      ensures Request().None? ==> outcome.None? && unchanged(resultsArr)
      ensures Request().Some? ==>
        resultsArr[..] == reply.written + old(resultsArr[..])[|reply.written|..]
      ensures Request().Some? ==>
        outcome == match ToBool(reply.returned)
                   case None => None
                   case Some(true) =>
                     (match Chain(resultsArr[..], 0)
                      case None => None
                      case Some(records) => Some(Ok(records)))
                   case Some(false) => Some(Err(Errors.Error(Errors.FailureMessage(reply.lastError))))
    {
      var request := Request();
      if request.None? {
        return None;
      }
      forall i | 0 <= i < |reply.written| {
        resultsArr[i] := reply.written[i];
      }
      var hasResult := ToBool(reply.returned);
      if hasResult.None? {
        return None;
      }
      if hasResult.value {
        var records := FromU16Slice(resultsArr[..]);
        if records.None? {
          return None;
        }
        outcome := Some(Ok(records.value));
      } else {
        var errorDesc := Errors.FailureMessage(reply.lastError);
        outcome := Some(Err(Errors.Error(errorDesc)));
      }
    }
  }

  /** The result of one watch: the decoded batch, or the error. */
  datatype Result = Ok(records: seq<FileNotifyInformation>) | Err(error: Errors.Error)
}
