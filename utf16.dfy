/** UTF-16 as `String::from_utf16` reads it (RFC 2781, section 2.2): a code
    unit outside 0xD800..0xDFFF stands for itself; a high surrogate
    (0xD800..0xDBFF) followed by a low surrogate (0xDC00..0xDFFF) stands for
    one supplementary character; any other surrogate makes the input invalid. */
module Utf16 {
  import opened Base

  predicate IsHigh(u: U16) { 0xD800 <= u < 0xDC00 }

  predicate IsLow(u: U16) { 0xDC00 <= u < 0xE000 }

  /** The character a surrogate pair stands for. */
  function Pair(hi: U16, lo: U16): (c: char)
    requires IsHigh(hi) && IsLow(lo)
    ensures 0x1_0000 <= c as int
  {
    (0x1_0000 + (hi - 0xD800) * 0x400 + (lo - 0xDC00)) as char
  }

  /** The code unit at `i` is not an unpaired surrogate. */
  ghost predicate ValidAt(u: seq<U16>, i: nat)
    requires i < |u|
  {
    && (IsHigh(u[i]) ==> i + 1 < |u| && IsLow(u[i + 1]))
    && (IsLow(u[i]) ==> 0 < i && IsHigh(u[i - 1]))
  }

  /** Declarative validity: every high surrogate is followed by a low one and
      every low surrogate is preceded by a high one. */
  ghost predicate IsValid(u: seq<U16>) {
    forall i :: 0 <= i < |u| ==> ValidAt(u, i)
  }

  /** `String::from_utf16`: `None` where Rust returns `Err`. Each character
      takes one or two code units, and an empty input decodes to "". */
  function Decode(u: seq<U16>): (r: Option<string>)
    ensures r.Some? ==> |r.value| <= |u| <= 2 * |r.value|
    ensures u == [] ==> r == Some([])
    decreases |u|
  {
    if u == [] then Some([])
    else if IsHigh(u[0]) then
      if 2 <= |u| && IsLow(u[1]) then
        match Decode(u[2..])
        case None => None
        case Some(rest) => Some([Pair(u[0], u[1])] + rest)
      else None
    else if IsLow(u[0]) then None
    else
      match Decode(u[1..])
      case None => None
      case Some(rest) => Some([u[0] as char] + rest)
  }

  /** The UTF-16 code units of one character. */
  function EncodeChar(c: char): (r: seq<U16>)
    ensures |r| == 1 || |r| == 2
  {
    var n := c as int;
    if n < 0x1_0000 then [n]
    else [0xD800 + (n - 0x1_0000) / 0x400, 0xDC00 + (n - 0x1_0000) % 0x400]
  }

  /** The UTF-16 encoding of a string, the inverse of `Decode`. */
  function Encode(s: string): (r: seq<U16>)
    ensures |s| <= |r| <= 2 * |s|
  {
    if s == [] then [] else EncodeChar(s[0]) + Encode(s[1..])
  }

  /** Decoding an encoded string gives the string back. */
  lemma {:induction false} DecodeEncode(s: string)
    ensures Decode(Encode(s)) == Some(s)
  {
    if s != [] {
      var c, u, rest := s[0], EncodeChar(s[0]), Encode(s[1..]);
      DecodeEncode(s[1..]);
      var n := c as int;
      assert Encode(s) == u + rest;
      var w := u + rest;
      if n < 0x1_0000 {
        assert w[0] == n && w[1..] == rest;
        assert !IsHigh(w[0]) && !IsLow(w[0]);
        assert w[0] as char == c;
        assert Decode(w) == Some([c] + s[1..]);
      } else {
        assert w[0] == u[0] && w[1] == u[1] && w[2..] == rest;
        assert IsHigh(u[0]) && IsLow(u[1]);
        assert Pair(u[0], u[1]) as int == n;
        assert Decode(w) == Some([c] + s[1..]);
      }
      assert [c] + s[1..] == s;
    }
  }

  /** A successful decode determines the code units: they are the encoding of the result. */
  lemma {:induction false} EncodeDecode(u: seq<U16>)
    requires Decode(u).Some?
    ensures Encode(Decode(u).value) == u
    decreases |u|
  {
    if u != [] {
      var s := Decode(u).value;
      if IsHigh(u[0]) {
        EncodeDecode(u[2..]);
        var c := Pair(u[0], u[1]);
        assert s == [c] + Decode(u[2..]).value;
        assert EncodeChar(c) == u[..2];
        assert Encode(s) == EncodeChar(c) + Encode(s[1..]);
        assert s[1..] == Decode(u[2..]).value;
        assert u == u[..2] + u[2..];
      } else {
        EncodeDecode(u[1..]);
        assert s[1..] == Decode(u[1..]).value;
        assert u == [u[0]] + u[1..];
      }
    }
  }

  /** `Encode` is injective: different strings have different encodings. */
  lemma EncodeInjective(s: string, t: string)
    requires Encode(s) == Encode(t)
    ensures s == t
  {
    DecodeEncode(s);
    DecodeEncode(t);
  }

  lemma ValidTail1(u: seq<U16>)
    requires |u| > 0 && !IsHigh(u[0]) && !IsLow(u[0])
    ensures IsValid(u) <==> IsValid(u[1..])
  {
    var t := u[1..];
    if IsValid(t) {
      forall i | 0 <= i < |u| ensures ValidAt(u, i) {
        if i > 0 {
          assert ValidAt(t, i - 1);
          assert u[i] == t[i - 1];
          if i < |t| { assert u[i + 1] == t[i]; }
          if i > 1 { assert u[i - 1] == t[i - 2]; }
        }
      }
    }
    if IsValid(u) {
      forall j | 0 <= j < |t| ensures ValidAt(t, j) {
        assert ValidAt(u, j + 1);
        assert t[j] == u[j + 1];
        if j + 1 < |t| { assert t[j + 1] == u[j + 2]; }
        if j > 0 { assert t[j - 1] == u[j]; }
      }
    }
  }

  lemma ValidTail2(u: seq<U16>)
    requires |u| >= 2 && IsHigh(u[0]) && IsLow(u[1])
    ensures IsValid(u) <==> IsValid(u[2..])
  {
    var t := u[2..];
    if IsValid(t) {
      forall i | 0 <= i < |u| ensures ValidAt(u, i) {
        if i > 1 {
          assert ValidAt(t, i - 2);
          assert u[i] == t[i - 2];
          if i - 1 < |t| { assert u[i + 1] == t[i - 1]; }
          if i > 2 { assert u[i - 1] == t[i - 3]; }
        }
      }
    }
    if IsValid(u) {
      forall j | 0 <= j < |t| ensures ValidAt(t, j) {
        assert ValidAt(u, j + 2);
        assert t[j] == u[j + 2];
        if j + 1 < |t| { assert t[j + 1] == u[j + 3]; }
        if j > 0 { assert t[j - 1] == u[j + 1]; }
      }
    }
  }

  /** `Decode` fails exactly on invalid input, i.e. on an unpaired surrogate. */
  lemma {:induction false} DecodeIsValid(u: seq<U16>)
    ensures Decode(u).Some? <==> IsValid(u)
    decreases |u|
  {
    if u != [] {
      if IsHigh(u[0]) {
        if 2 <= |u| && IsLow(u[1]) {
          ValidTail2(u);
          DecodeIsValid(u[2..]);
        } else {
          assert !ValidAt(u, 0);
        }
      } else if IsLow(u[0]) {
        assert !ValidAt(u, 0);
      } else {
        ValidTail1(u);
        DecodeIsValid(u[1..]);
      }
    }
  }
}
