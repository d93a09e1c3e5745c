/**
 * The `utf16z!` macro of src/util.rs: `s.encode_utf16().chain([0]).collect()`,
 * the UTF-16 encoding of a Rust string (a sequence of Unicode scalar values,
 * here Dafny's `char`) followed by one 0 code unit, as Win32 wide-string
 * parameters expect. Encoding follows section 3.9 of the Unicode Standard and
 * section 2.1 of RFC 2781; `Decode` is section 2.2 of RFC 2781.
 */
module Utf16 {
  import opened Common

  /** Code units a scalar value takes: one below U+10000, two (a surrogate pair) above. */
  function UnitCount(c: char): nat
  {
    if c as int < 0x1_0000 then 1 else 2
  }

  /** Code units a whole string takes. */
  function UnitLength(s: string): nat
  {
    if s == [] then 0 else UnitCount(s[0]) + UnitLength(s[1..])
  }

  predicate IsHighSurrogate(u: u16)
  {
    0xD800 <= u <= 0xDBFF
  }

  predicate IsLowSurrogate(u: u16)
  {
    0xDC00 <= u <= 0xDFFF
  }

  /** The code units of one scalar value. */
  function EncodeScalar(c: char): (r: seq<u16>)
    ensures |r| == UnitCount(c)
    ensures |r| == 1 ==> r[0] as int == c as int && !IsHighSurrogate(r[0]) && !IsLowSurrogate(r[0])
    ensures |r| == 2 ==> IsHighSurrogate(r[0]) && IsLowSurrogate(r[1])
    ensures |r| == 2 ==> 0x1_0000 + (r[0] as int - 0xD800) * 0x400 + (r[1] as int - 0xDC00) == c as int
  {
    var v := c as int;
    if v < 0x1_0000 then
      [v as u16]
    else
      var u := v - 0x1_0000;
      [(0xD800 + u / 0x400) as u16, (0xDC00 + u % 0x400) as u16]
  }

  /** `str::encode_utf16`. */
  function Encode(s: string): (r: seq<u16>)
    ensures |r| == UnitLength(s)
  {
    if s == [] then [] else EncodeScalar(s[0]) + Encode(s[1..])
  }

  /** `utf16z!(s)`: the encoding of `s` with a 0 terminator appended. */
  function Utf16z(s: string): (r: seq<u16>)
    ensures |r| == UnitLength(s) + 1
    ensures r[|r| - 1] == 0
    ensures Decode(r[..|r| - 1]) == Some(s)
  {
    DecodeEncode(s);
    assert (Encode(s) + [0])[..|Encode(s)|] == Encode(s);
    Encode(s) + [0]
  }

  /**
   * Section 2.2 of RFC 2781: a unit outside D800-DFFF is a scalar value by
   * itself; a high surrogate followed by a low surrogate is one supplementary
   * scalar value; any other surrogate is an error.
   */
  function Decode(units: seq<u16>): (r: Option<string>)
    decreases |units|
  {
    if units == [] then Some([])
    else
      var u := units[0] as int;
      if u < 0xD800 || 0xDFFF < u then
        match Decode(units[1..])
        case None => None
        case Some(rest) => Some([u as char] + rest)
      else if u <= 0xDBFF && 2 <= |units| && IsLowSurrogate(units[1]) then
        var c := 0x1_0000 + (u - 0xD800) * 0x400 + (units[1] as int - 0xDC00);
        match Decode(units[2..])
        case None => None
        case Some(rest) => Some([c as char] + rest)
      else None
  }

  /** Decoding inverts encoding: every string survives the round trip. */
  lemma {:induction false} DecodeEncode(s: string)
    ensures Decode(Encode(s)) == Some(s)
  {
    if s != [] {
      var head := EncodeScalar(s[0]);
      var units := Encode(s);
      assert units == head + Encode(s[1..]);
      DecodeEncode(s[1..]);
      if |head| == 1 {
        assert units[1..] == Encode(s[1..]);
      } else {
        assert units[2..] == Encode(s[1..]);
      }
      assert [s[0]] + s[1..] == s;
    }
  }

  /** Encoding distributes over concatenation. */
  lemma {:induction false} EncodeAppend(s: string, t: string)
    ensures Encode(s + t) == Encode(s) + Encode(t)
  {
    if s != [] {
      assert (s + t)[1..] == s[1..] + t;
      EncodeAppend(s[1..], t);
    } else {
      assert s + t == t;
    }
  }

  /** Every unit of a valid encoding belongs to a scalar value: no lone surrogates. */
  lemma {:induction false} EncodeHasNoLoneSurrogate(s: string, i: nat)
    requires i < |Encode(s)|
    ensures IsHighSurrogate(Encode(s)[i]) ==> i + 1 < |Encode(s)| && IsLowSurrogate(Encode(s)[i + 1])
    ensures IsLowSurrogate(Encode(s)[i]) ==> 0 < i && IsHighSurrogate(Encode(s)[i - 1])
  {
    var head := EncodeScalar(s[0]);
    var rest := Encode(s[1..]);
    assert Encode(s) == head + rest;
    if i >= |head| {
      EncodeHasNoLoneSurrogate(s[1..], i - |head|);
    }
  }

  /**
   * The macro does not reject a NUL character inside the string: it becomes a
   * 0 unit before the terminator, so a Win32 reader sees the string cut there.
   */
  lemma EmbeddedNul(s: string, i: nat)
    requires i < |s| && s[i] == '\0'
    ensures UnitLength(s[..i]) < |Utf16z(s)| - 1
    ensures Utf16z(s)[UnitLength(s[..i])] == 0
  {
    assert s == s[..i] + s[i..];
    EncodeAppend(s[..i], s[i..]);
    assert Encode(s[i..]) == EncodeScalar('\0') + Encode(s[i + 1..]);
  }
}
