/** The helpers that `src/watch.rs`, `src/util.rs` and `src/winutil.rs` each
    carry a copy of: reading a little-endian `u32` from two `u16` cells,
    decoding a file name, and converting between `bool` and the Win32 `BOOL`. */
module WinUtil {
  import opened Base
  import Utf16

  /** `to_u32le`: Rust's `to_u32le` computes `(v[offset + 1] << 16) | v[offset]`.
      As `v[offset] < 2^16` the two operands share no bit, so the `|` adds the
      low half to the high half times `2^16`. Indexing outside `v` panics in
      Rust, so both cells must exist. The value lies in the block of `2^16`
      values numbered `v[offset + 1]`: the high cell is the high half. */
  function ToU32Le(v: seq<U16>, offset: nat): (r: U32)
    requires offset + 1 < |v|
    ensures v[offset + 1] as int * 0x1_0000 <= r < (v[offset + 1] as int + 1) * 0x1_0000
  {
    (v[offset + 1] as int) * 0x1_0000 + v[offset]
  }

  /** `v[offset]` is the low 16 bits of `ToU32Le(v, offset)` and
      `v[offset + 1]` the high 16 bits. */
  lemma ToU32LeHalves(v: seq<U16>, offset: nat)
    requires offset + 1 < |v|
    ensures ToU32Le(v, offset) % 0x1_0000 == v[offset]
    ensures ToU32Le(v, offset) / 0x1_0000 == v[offset + 1]
  {
  }

  /** Storing the low and high halves of any `u32` in two adjacent cells and
      reading them back with `ToU32Le` gives the value back. */
  lemma ToU32LeOfHalves(v: seq<U16>, offset: nat, x: U32)
    requires offset + 1 < |v|
    requires v[offset] == x % 0x1_0000 && v[offset + 1] == x / 0x1_0000
    ensures ToU32Le(v, offset) == x
  {
  }

  /** `ToU32Le` reads the two cells at `offset` and nothing else. */
  lemma ToU32LeReadsTwoCells(v: seq<U16>, w: seq<U16>, i: nat, j: nat)
    requires i + 1 < |v| && j + 1 < |w|
    requires v[i] == w[j] && v[i + 1] == w[j + 1]
    ensures ToU32Le(v, i) == ToU32Le(w, j)
  {
  }

  /** `to_filename`: the `lenBytes / 2` cells from `offset` on, decoded as
      UTF-16. `None` is a panic: the slice leaves `v`, or `from_utf16(..).unwrap()`
      meets an unpaired surrogate. */
  function ToFilename(v: seq<U16>, offset: nat, lenBytes: nat): (r: Option<string>)
    ensures r.Some? ==> offset + lenBytes / 2 <= |v|
  {
    if offset + lenBytes / 2 <= |v| then Utf16.Decode(v[offset .. offset + lenBytes / 2]) else None
  }

  /** `ToFilename` succeeds exactly when the slice lies inside `v` and is valid
      UTF-16, and then the slice is the UTF-16 encoding of the name it returns:
      exactly `lenBytes / 2` cells are used, so an odd trailing byte is dropped. */
  lemma {:induction false} ToFilenameMeaning(v: seq<U16>, offset: nat, lenBytes: nat)
    ensures ToFilename(v, offset, lenBytes).Some? <==>
      offset + lenBytes / 2 <= |v| && Utf16.IsValid(v[offset .. offset + lenBytes / 2])
    ensures ToFilename(v, offset, lenBytes).Some? ==>
      Utf16.Encode(ToFilename(v, offset, lenBytes).value) == v[offset .. offset + lenBytes / 2]
  {
    if offset + lenBytes / 2 <= |v| {
      var units := v[offset .. offset + lenBytes / 2];
      Utf16.DecodeIsValid(units);
      if Utf16.Decode(units).Some? {
        Utf16.EncodeDecode(units);
      }
    }
  }

  /** A name laid out as its UTF-16 encoding is read back exactly, whether the
      byte length counts only the encoding or has one odd byte more. */
  lemma {:induction false} ToFilenameOfEncoding(v: seq<U16>, offset: nat, name: string, extra: nat)
    requires extra <= 1
    requires offset + |Utf16.Encode(name)| <= |v|
    requires v[offset .. offset + |Utf16.Encode(name)|] == Utf16.Encode(name)
    ensures ToFilename(v, offset, 2 * |Utf16.Encode(name)| + extra) == Some(name)
  {
    var units := Utf16.Encode(name);
    HalfOfByteLength(|units|, extra);
    ToFilenameOfSlice(v, offset, 2 * |units| + extra, units);
    Utf16.DecodeEncode(name);
  }

  lemma HalfOfByteLength(cells: nat, extra: nat)
    requires extra <= 1
    ensures (2 * cells + extra) / 2 == cells
  {
  }

  /** `ToFilename` decodes the `lenBytes / 2` cells it is pointed at. */
  lemma ToFilenameOfSlice(v: seq<U16>, offset: nat, lenBytes: nat, units: seq<U16>)
    requires lenBytes / 2 == |units| && offset + |units| <= |v|
    requires v[offset .. offset + |units|] == units
    ensures ToFilename(v, offset, lenBytes) == Utf16.Decode(units)
  {
  }

  /** The Win32 `TRUE` and `FALSE`. */
  const TRUE: I32 := 1
  const FALSE: I32 := 0

  /** `to_bool`: only `TRUE` and `FALSE` are accepted; any other value reaches
      `unreachable!()`. */
  function ToBool(b: I32): (r: Option<bool>)
    ensures r.Some? <==> b == TRUE || b == FALSE
    ensures r == Some(true) <==> b == TRUE
  {
    match b
    case 1 => Some(true)
    case 0 => Some(false)
    case _ => None
  }

  /** `from_bool`, the inverse of `to_bool`. */
  function FromBool(b: bool): (r: I32)
    ensures r == TRUE || r == FALSE
    ensures ToBool(r) == Some(b)
  {
    if b then TRUE else FALSE
  }

  /** Whatever `ToBool` accepts, `FromBool` gives back. */
  lemma FromBoolToBool(b: I32)
    requires ToBool(b).Some?
    ensures FromBool(ToBool(b).value) == b
  {
  }
}
