# winwatch: the change-record decoder, in Dafny

winwatch is a small Rust library for watching a Windows directory. A watcher owns a buffer of `u16` cells. `ReadDirectoryChangesW` fills that buffer with a chain of `FILE_NOTIFY_INFORMATION` records. The library decodes the chain into a list of change records: an action, such as `FileAdded`, and a file name.

This project models that decoder and the parts around it:

- `to_u32le` reads a little-endian `u32` from two adjacent cells.
- `to_filename` decodes `len / 2` code units as UTF-16, following section 2.2 of RFC 2781.
- `to_file_notify_information` reads one record. The header holds the next-entry offset at `+0`, the action at `+2` and the name byte length at `+4`; the name starts at `+6`.
- `from_u16_slice` walks the chain from cell 0 until a record's halved next-entry offset is 0.
- `FileNotifyChange::as_u32` ORs the category tags into the filter mask.
- `FileAction::from_u32` maps action codes to actions, and `Display` prints them.
- `to_bool` and `from_bool` convert between the Win32 `BOOL` and `bool`.
- The watcher, `WinWatch` (`DirWatch` in `src/lib.rs`), sizes the buffer and builds the filter mask once. On each read it passes both to the system, then either decodes the buffer or reports `GetLastError`'s code.

Modules, one file each:

- `Base` (`base.dfy`): the integer widths `U16`, `U32` and `I32` (the Win32 `BOOL`), and an `Option` type. `None` stands for "the Rust program panics" throughout the model.
- `Utf16` (`utf16.dfy`): `String::from_utf16` as `Decode`, its inverse `Encode`, and the declarative validity predicate `IsValid`.
- `WinUtil` (`winutil.dfy`): `to_u32le`, `to_filename`, `to_bool` and `from_bool`. `src/util.rs` and `src/winutil.rs` carry identical copies of all four, and `src/watch.rs` carries copies of the two readers, `to_u32le` and `to_filename`; each is modelled once. `src/lib.rs` has no copies of its own and calls those of `src/winutil.rs`. `src/watch.rs` takes its `BOOL` helpers from `src/ffi.rs`, whose `to_bool`/`from_bool` match the ones modelled here case for case.
- `Types` (`types.dfy`): `FileNotifyChange` and its tags, `as_u32` as the imperative method `AsU32`, `FileAction`, `from_u32` and `Display`.
- `Errors` (`errors.dfy`): the error type, and the message `"Failure detected with system error code N"` with `N` in decimal.
- `Watch` (`watch.dfy`): the record decoder and the chain walk. `from_u16_slice` is a method with a loop, proved equal to the recursive specification `Chain`. The `WinWatch` class owns an `array<U16>` buffer that each read overwrites in place.
- `Layout` (`layout.dfy`): the inverse of the decoder. It lays records out back to back, in the layout the decoder reads, and proves the round trip: decoding the laid-out buffer gives back the same records, in the same order. The system may also pad records to `DWORD` boundaries; `Layout` does not, but `ChainComplete` covers padded chains too, because a chain's offsets may point any distance forward.

Panics are modelled as one failure outcome, `None`. These include:

- an index or slice outside the buffer;
- `unwrap` on invalid UTF-16;
- `unreachable!` on an action code outside 1..5, or on a `BOOL` other than `TRUE`/`FALSE`;
- the `buffer_size * 2` overflow, which panics under checked (debug) arithmetic.

`ToU32Le` is the one exception. It takes its index bound as a precondition, because every caller in the model (`ToFileNotifyInformation` in `watch.dfy`) checks the bound first; in the Rust code the panic comes from `to_u32le`'s own indexing.

The code decodes the whole buffer from cell 0 and ignores the byte count the system returns. It has no valid-length bound and no separate error kinds for a truncated record or an unknown action code, and this model follows the code: a record that runs off the buffer, or an unknown action code, is a panic. A decode that succeeds always yields at least one record; it can never be empty.

## Model

| member | source | states |
|---|---|---|
| WinUtil.ToU32Le | src/watch.rs:181-183 | the read at `o` needs `o + 1` to be below the buffer length, and its value lies in the block of 65536 values numbered by the high cell `v[o+1]` |
| WinUtil.ToU32LeHalves | src/watch.rs:181-183 | `v[o]` is the low 16 bits of the value read at `o` and `v[o+1]` the high 16 bits, so the value is `v[o] + 65536 * v[o+1]`; the read needs `o + 1` to be below the buffer length |
| WinUtil.ToU32LeOfHalves | src/util.rs:60-62 | storing the low and high halves of any `u32` at `o` and `o+1` makes the read at `o` return that `u32` |
| WinUtil.ToU32LeReadsTwoCells | src/winutil.rs:47-49 | the value read at `o` depends on the cells `o` and `o+1` only |
| WinUtil.ToFilename | src/watch.rs:176-179 | a decoded name came from a slice of `len / 2` cells that lies inside the buffer |
| WinUtil.ToFilenameMeaning | src/util.rs:55-58 | the name decodes exactly when the `len / 2` cells lie inside the buffer and are valid UTF-16; the UTF-16 encoding of the name is those cells (so an odd trailing byte is dropped) |
| WinUtil.ToFilenameOfEncoding | src/util.rs:55-58 | the UTF-16 encoding of any string, placed at the offset with a byte length of twice its code-unit count (or one odd byte more), decodes back to that string |
| WinUtil.ToBool | src/util.rs:37-43 | defined exactly on `TRUE` and `FALSE`; the result is `true` exactly for `TRUE`; any other value is a panic |
| WinUtil.FromBool | src/util.rs:48-53 | the result is `TRUE` or `FALSE`, and `to_bool(from_bool(b)) == b` |
| WinUtil.FromBoolToBool | src/winutil.rs:24-40 | `from_bool(to_bool(b)) == b` for every `BOOL` that `to_bool` accepts |
| Utf16.Decode | src/watch.rs:178 | a successful decode of `n` code units gives between `n / 2` and `n` characters, and the empty slice decodes to the empty string |
| Utf16.Encode | src/watch.rs:178 | a string of `n` characters encodes to between `n` and `2n` code units |
| Utf16.DecodeEncode | src/watch.rs:178 | decoding the UTF-16 encoding of any string gives that string |
| Utf16.EncodeDecode | src/watch.rs:178 | a successful decode is undone by encoding: encoding the result gives back the code units |
| Utf16.EncodeInjective | src/watch.rs:178 | different strings have different encodings |
| Utf16.DecodeIsValid | src/watch.rs:178 | decoding succeeds exactly when every high surrogate is followed by a low one and every low surrogate is preceded by a high one |
| Types.Tag | src/types.rs:19-26 | each category's discriminant has exactly one bit set, and that bit is inside `0x17F` |
| Types.TagsAreDistinctBits | src/types.rs:18-27 | each tag is nonzero and lies inside `0x17F`, and two tags share a bit exactly when they are the same category |
| Types.AsU32 | src/types.rs:31-37 | the loop computes the OR of the listed tags; the mask has exactly the tags of the listed categories set and no bit outside `0x17F`; an empty list gives 0 |
| Types.MaskOfRepresents | src/types.rs:32-35 | the folded OR sets the tag of every listed category, no other tag, and no bit outside `0x17F` |
| Types.MaskOfIgnoresOrderAndDuplicates | src/types.rs:33-35 | two lists with the same members give the same mask, whatever their order and repetitions |
| Types.RepresentsUnique | src/types.rs:19-26 | a set of categories has only one mask |
| Types.MaskOfInjective | src/types.rs:19-26 | lists with equal masks have the same members, so different sets give different masks |
| Types.Discriminant | src/types.rs:42-46 | each action's discriminant is one of the codes 1..5 |
| Types.FromU32 | src/types.rs:51-60 | defined exactly on 1..5, with other codes a panic; the discriminant of the result is the code |
| Types.FromU32OfDiscriminant | src/types.rs:41-47 | every action is read back from its own discriminant |
| Types.FromU32Injective | src/types.rs:52-57 | two codes read as the same action are the same code |
| Types.Debug | src/types.rs:40 | the derived `Debug` text is the variant name, which starts with `File` and has 9 to 18 characters |
| Types.Display | src/types.rs:63-68 | `Display` writes the `Debug` text: the text of an action is the `Debug` text of that action and of no other |
| Types.DisplayFileAdded | src/types.rs:63-78 | `Display` and `Debug` of `FileAdded` are both `"FileAdded"` |
| Types.DisplayPrefixFree | src/types.rs:63-68 | no action's display text is a prefix of another's: display text followed by a string determines both |
| Errors.Decimal | src/watch.rs:140 | the decimal text of a number is nonempty, all digits, and has no leading zero |
| Errors.DecimalValueOfDecimal | src/watch.rs:140 | reading the decimal text back gives the number |
| Errors.FailureMessage | src/watch.rs:140 | the message is the fixed prefix followed by digits only |
| Errors.FailureMessageCode | src/lib.rs:191 | the digits after the prefix spell the system error code |
| Watch.DisplayRecord | src/watch.rs:36-41 | the displayed text is longer than the file name plus the four characters of the arrow, and it ends with the file name; `DisplayRecordInjective` shows that the text determines the record |
| Watch.DisplayRecordInjective | src/lib.rs:105-110 | different records display differently |
| Watch.ToFileNotifyInformation | src/watch.rs:162-174 | a record is read only when its six header cells lie inside the buffer |
| Watch.ToFileNotifyInformationSound | src/watch.rs:162-166 | what is read at `o` is a record laid out at `o`: the halved `u32` at `o` is the next offset in cells, the `u32` at `o+2` is the action's code, and the cells from `o+6` for the byte length at `o+4` halved lie inside the buffer and are the name's UTF-16 encoding |
| Watch.ToFileNotifyInformationComplete | src/lib.rs:213-225 | whenever such a record lies at `o`, reading at `o` produces exactly it |
| Watch.Chain | src/watch.rs:146-150 | a successful decode has at least one record |
| Watch.FromU16Slice | src/watch.rs:145-160 | the loop's result is the chain from cell 0 (as `Chain` defines it), with at least one record on success |
| Watch.ChainSound | src/watch.rs:149-157 | a decoded list is a chain from the start offset: one record at each offset, in chain order; offsets strictly increase; each non-last record points to the next; the last has a halved next offset of 0 |
| Watch.ChainComplete | src/watch.rs:149-157 | conversely, every such chain in the buffer decodes to exactly its records |
| Watch.OddByteOffsetEndsChain | src/watch.rs:163 | a raw next-entry offset of 1 byte halves to 0 and ends the chain after that record |
| Watch.WinWatch.constructor | src/watch.rs:63-76 | the buffer has exactly `buffer_size` cells, and the filter mask is computed once as the OR of the listed tags |
| Watch.WinWatch.Request | src/watch.rs:105-113 | the system is told `2 * buffer_size` bytes (a panic when that overflows a `u32`), the subtree flag as a `BOOL` and the stored filter mask, the same on every read |
| Watch.WinWatch.Watch | src/watch.rs:105-143 | the system's cells overwrite the front of the buffer and nothing else changes; on success the outcome is `Ok` of the chain decoded from the whole buffer; on failure it is `Err` with the failure message for `GetLastError`'s code; a `BOOL` other than `TRUE`/`FALSE` is a panic |
| Layout.LayoutRecord | src/watch.rs:162-166 | a laid-out record takes six header cells plus the name's code units |
| Layout.RecordAtLayout | src/watch.rs:162-166 | a laid-out record, wherever it sits in a buffer, is exactly the record the decoder reads there |
| Layout.LaidOutIsChain | src/watch.rs:149-157 | records laid out one after another form a chain of exactly those records |
| Layout.LayoutLaysOut | src/watch.rs:162-166 | a laid-out batch, placed at any cell of any buffer, has its records one after another from that cell, each pointing `2 * (6 + name cells)` bytes on and the last pointing 0 |
| Layout.RoundTrip | src/watch.rs:145-174 | laying out a list of records (any action, any name) and decoding the buffer from cell 0 gives back the same list in the same order, whatever follows the batch |
| Layout.OneRecordBuffer | src/watch.rs:145-183 | a concrete buffer holding one `FileAdded` record named `a.txt` decodes to that record |

The other copies of the same code are covered by the same members:

- `WinUtil.ToFilenameMeaning` also covers src/winutil.rs:42-45.
- `WinUtil.ToBool` also covers src/winutil.rs:24-30.
- `WinUtil.FromBool` also covers src/winutil.rs:35-40.
- `Types.AsU32` also covers src/lib.rs:42-48.
- `Types.MaskOfIgnoresOrderAndDuplicates` also covers src/lib.rs:43-47.
- `Types.FromU32` also covers src/lib.rs:66-75.
- `Types.DisplayFileAdded` also covers src/lib.rs:78-93.
- `Watch.FromU16Slice` also covers src/lib.rs:196-211.
- `Watch.WinWatch.constructor` also covers `DirWatch::new`, src/lib.rs:138-151.
- `Watch.WinWatch.Request` also covers src/lib.rs:160-166.
- `Watch.WinWatch.Watch` also covers src/lib.rs:188-193.

## Left out

- The system calls are not modelled. These are `CreateFileW`, `CloseHandle`, `GetLastError`, the `Drop` implementations and handle opening and closing, all FFI. `ReadDirectoryChangesW` becomes the parameter `ReadReply`: the cells it writes from the start of the buffer, the `BOOL` it returns and the code `GetLastError` then reports.
- The byte count the system returns (`lp_bytes_returned`) is not modelled, because the code never reads it.
- `src/notify.rs` is not part of this model. It only forwards calls to the change-notification API.
- `src/ffi.rs` is not part of this model. It holds `extern` declarations, and its `to_bool`/`from_bool` copies behave as those in `src/util.rs`.
- The demo programs `bin/main.rs` and `src/bin/main.rs` are not part of this model. They are thread and channel plumbing.
- `to_lpcwstr` is not modelled. It hands out the address of a temporary wide-string buffer, which is FFI memory handling.
- The `RefCell` around the `src/lib.rs` buffer is not modelled. The buffer is an array owned by the watcher.
- The buffer's initial contents are not modelled. The Rust code sets the length of an uninitialised `Vec`, and the model's new array has arbitrary contents.
- ToU32Le: written as `v[o+1] * 65536 + v[o]` instead of `(v[o+1] << 16) | v[o]`. The two are equal because the halves occupy disjoint bits, but the model does not prove this on bit-vectors.
- ToU32Le: takes `o + 1 < |v|` as a precondition instead of modelling the out-of-bounds panic.
- `usize` overflow of the offsets is not modelled. Offsets are unbounded naturals, and a `usize` offset cannot overflow before the slice bound check fails.
- Watch.WinWatch.Request: `buffer_size * 2` overflowing a `u32` is modelled as a panic, which is debug-build checked arithmetic. A release build would wrap instead.
- Watch.FromU16Slice: every panic ends in the single outcome `None`. Which statement panicked is not distinguished.
