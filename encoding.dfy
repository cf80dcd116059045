/** The incremental UTF-8 decoder of GunnyScript: `Utf8Decoder::decode_char`
    takes one character from the front of a consuming byte cursor, telling
    "need more bytes" (`Ok(None)`) apart from `InvalidUtf8`. Its bit formulas
    neither mask nor check the continuation bytes; `DecodeSpec` follows them
    as written, and `DecodeIntended` is the masked decoder the code evidently
    means, with its round trip against the RFC 3629 encoder proved. */
module Encoding {
  import opened Utf8
  import opened Wrappers

  datatype EncodingError = InvalidUtf8

  /** A consuming cursor over bytes (`bytes::Bytes`): `rest` holds the bytes
      not yet taken. */
  class Bytes {
    var rest: seq<u8>

    constructor (data: seq<u8>)
      ensures rest == data
    {
      rest := data;
    }

    /** `Buf::has_remaining`. */
    method HasRemaining() returns (b: bool)
      ensures b <==> |rest| > 0
    {
      return |rest| > 0;
    }

    /** `Buf::remaining`. */
    method Remaining() returns (n: nat)
      ensures n == |rest|
    {
      return |rest|;
    }

    /** `Buf::get_u8`: take the first byte (the program panics on an empty
        cursor). */
    method GetU8() returns (b: u8)
      requires |rest| > 0
      modifies this
      ensures b == old(rest[0]) && rest == old(rest[1..])
    {
      b := rest[0];
      rest := rest[1..];
    }
  }

  /** The values `char::try_from(u32)` accepts: Unicode scalar values, that
      is, not a surrogate and at most 0x10FFFF. */
  predicate IsScalar(v: int) {
    0 <= v < 0xD800 || 0xE000 <= v <= 0x10FFFF
  }

  /** `char::try_from(u32)`, failing with `InvalidUtf8`. */
  function CharFrom(v: int): (r: Result<char, EncodingError>)
    ensures r.Ok? <==> IsScalar(v)
    ensures r.Ok? ==> r.value as int == v
  {
    if IsScalar(v) then Ok(v as char) else Err(InvalidUtf8)
  }

  function Bits(b: u8): bv32 {
    b as bv32
  }

  /** `(a & 0x1F) << 6 | b` */
  function Combine2(a: u8, b: u8): nat {
    (((Bits(a) & 0x1F) << 6) | Bits(b)) as nat
  }

  /** `(a & 0x0F) << 12 | b << 6 | c` */
  function Combine3(a: u8, b: u8, c: u8): nat {
    (((Bits(a) & 0x0F) << 12) | (Bits(b) << 6) | Bits(c)) as nat
  }

  /** `(a & 0x07) << 18 | b << 12 | c << 6 | d` */
  function Combine4(a: u8, b: u8, c: u8, d: u8): nat {
    (((Bits(a) & 0x07) << 18) | (Bits(b) << 12) | (Bits(c) << 6) | Bits(d)) as nat
  }

  /** What one call of `decode_char` returns and how many bytes it takes
      from the cursor. */
  datatype Decoded = Decoded(result: Result<Option<char>, EncodingError>, consumed: nat)

  /** `decode_char` on a cursor holding `buf`, as written: an empty cursor
      is `Ok(None)`; the lead byte is taken, a width-0 lead byte is
      `InvalidUtf8`, too few following bytes is `Ok(None)` (with the lead byte
      gone); otherwise the whole character is taken and its unmasked value
      must be a scalar value. */
  function DecodeSpec(buf: seq<u8>): (d: Decoded)
    ensures d.consumed <= |buf|
    ensures |buf| > 0 ==> 1 <= d.consumed
    ensures d.result.Ok? && d.result.value.Some? ==> |buf| > 0 && d.consumed == Width(buf[0])
  {
    if |buf| == 0 then Decoded(Ok(None), 0)
    else
      var a := buf[0];
      var w := Width(a);
      if w == 0 then Decoded(Err(InvalidUtf8), 1)
      else if |buf| - 1 < w - 1 then Decoded(Ok(None), 1)
      else
        match CharFrom(Computed(buf))
        case Ok(ch) => Decoded(Ok(Some(ch)), w)
        case Err(e) => Decoded(Err(e), w)
  }

  /** The value `decode_char` computes from a complete sequence, without
      masking the continuation bytes. */
  function Computed(buf: seq<u8>): nat
    requires |buf| > 0 && Width(buf[0]) > 0 && |buf| >= Width(buf[0])
  {
    var a := buf[0];
    var w := Width(a);
    if w == 1 then a as nat
    else if w == 2 then Combine2(a, buf[1])
    else if w == 3 then Combine3(a, buf[1], buf[2])
    else Combine4(a, buf[1], buf[2], buf[3])
  }

  /** `Utf8Decoder::decode_char`, taking bytes from the cursor one
      `get_u8` at a time. */
  method DecodeChar(buf: Bytes) returns (r: Result<Option<char>, EncodingError>)
    modifies buf
    ensures r == DecodeSpec(old(buf.rest)).result
    ensures buf.rest == old(buf.rest)[DecodeSpec(old(buf.rest)).consumed..]
  {
    ghost var input := buf.rest;
    var has := buf.HasRemaining();
    if !has {
      return Ok(None);
    }
    var a := buf.GetU8();
    var chLen := Width(a);
    if chLen == 0 {
      return Err(InvalidUtf8);
    }
    var remaining := buf.Remaining();
    if remaining < chLen - 1 {
      return Ok(None);
    }
    var v: nat;
    if chLen == 1 {
      v := a as nat;
    } else if chLen == 2 {
      var b := buf.GetU8();
      v := Combine2(a, b);
    } else if chLen == 3 {
      var b := buf.GetU8();
      var c := buf.GetU8();
      v := Combine3(a, b, c);
    } else {
      var b := buf.GetU8();
      var c := buf.GetU8();
      var d := buf.GetU8();
      v := Combine4(a, b, c, d);
    }
    assert input[chLen..] == buf.rest;
    match CharFrom(v)
    case Ok(ch) => return Ok(Some(ch));
    case Err(e) => return Err(e);
  }

  // ---------------------------------------------------------------------
  // Properties of the decoder as written

  /** An empty cursor gives `Ok(None)` and nothing is taken. */
  lemma DecodeEmpty()
    ensures DecodeSpec([]) == Decoded(Ok(None), 0)
  {
  }

  /** A byte that cannot start a character (0x80-0xC1, 0xF5-0xFF) is
      `InvalidUtf8`, and only that byte is taken. */
  lemma DecodeInvalidLead(buf: seq<u8>)
    requires |buf| > 0
    requires 0x80 <= buf[0] <= 0xC1 || 0xF5 <= buf[0]
    ensures DecodeSpec(buf) == Decoded(Err(InvalidUtf8), 1)
  {
  }

  /** A lead byte followed by fewer bytes than its character needs gives
      `Ok(None)`, with the lead byte already taken. */
  lemma DecodeIncomplete(buf: seq<u8>)
    requires |buf| > 0 && Width(buf[0]) > 0
    requires |buf| < Width(buf[0])
    ensures DecodeSpec(buf) == Decoded(Ok(None), 1)
  {
  }

  /** An ASCII byte decodes to the same code point and only it is taken. */
  lemma DecodeAscii(buf: seq<u8>)
    requires |buf| > 0 && buf[0] < 0x80
    ensures DecodeSpec(buf).consumed == 1
    ensures DecodeSpec(buf).result.Ok? && DecodeSpec(buf).result.value.Some?
    ensures DecodeSpec(buf).result.value.value as int == buf[0] as int
  {
  }

  /** The decoder succeeds, or needs more bytes, or fails, exactly as the
      lead byte's width and the length of the cursor dictate: a complete
      character of a valid lead byte is taken whole. */
  lemma DecodeConsumption(buf: seq<u8>)
    requires |buf| > 0
    ensures var d := DecodeSpec(buf);
      && (Width(buf[0]) == 0 <==> d.result == Err(InvalidUtf8) && d.consumed == 1 && Width(buf[0]) == 0)
      && (Width(buf[0]) > 0 && |buf| < Width(buf[0]) <==> d.result == Ok(None))
      && (Width(buf[0]) > 0 && |buf| >= Width(buf[0]) ==> d.consumed == Width(buf[0]))
  {
  }

  /** A complete sequence of a valid lead byte is taken whole; it decodes
      to the value computed from it when that is a scalar value, and is
      `InvalidUtf8` when it is not (a surrogate, or above 0x10FFFF). */
  lemma DecodeComplete(buf: seq<u8>)
    requires |buf| > 0 && Width(buf[0]) > 0 && |buf| >= Width(buf[0])
    ensures IsScalar(Computed(buf)) ==>
      DecodeSpec(buf) == Decoded(Ok(Some(Computed(buf) as char)), Width(buf[0]))
    ensures !IsScalar(Computed(buf)) ==> DecodeSpec(buf) == Decoded(Err(InvalidUtf8), Width(buf[0]))
  {
  }

  /** Two instances of `DecodeComplete`'s failing case: as written, ED 20 00
      computes the surrogate 0xD800 and F4 90 80 80 computes 0x192080. */
  lemma DecodeNonScalar()
    ensures DecodeSpec([0xED, 0x20, 0x00]) == Decoded(Err(InvalidUtf8), 3)
    ensures DecodeSpec([0xF4, 0x90, 0x80, 0x80]) == Decoded(Err(InvalidUtf8), 4)
  {
    assert Combine3(0xED, 0x20, 0x00) == 0xD800;
    assert Combine4(0xF4, 0x90, 0x80, 0x80) == 0x192080;
  }

  /** Because the continuation bytes are not masked, the encoding ED A0 80
      of the surrogate 0xD800 is not refused: it computes 0xF880. */
  lemma DecodeAcceptsEncodedSurrogate()
    ensures DecodeSpec([0xED, 0xA0, 0x80]) == Decoded(Ok(Some(0xF880 as char)), 3)
  {
    assert Combine3(0xED, 0xA0, 0x80) == 0xF880;
  }

  // ---------------------------------------------------------------------
  // The missing continuation-byte mask

  /** The UTF-8 encoding of a scalar value (section 3 of RFC 3629). */
  function Encode(c: char): (s: seq<u8>)
    ensures 1 <= |s| <= 4
  {
    var v := c as int;
    if v < 0x80 then [v as u8]
    else if v < 0x800 then [(0xC0 + v / 64) as u8, (0x80 + v % 64) as u8]
    else if v < 0x10000 then
      [(0xE0 + v / 4096) as u8, (0x80 + (v / 64) % 64) as u8, (0x80 + v % 64) as u8]
    else
      [(0xF0 + v / 262144) as u8, (0x80 + (v / 4096) % 64) as u8,
       (0x80 + (v / 64) % 64) as u8, (0x80 + v % 64) as u8]
  }

  /** The two bytes C4 80 encode U+0100, but the decoder as written ORs the
      unmasked continuation byte 0x80 into bit 7 and returns U+0180. */
  lemma DecodeUnmaskedCounterexample()
    ensures Encode(0x100 as char) == [0xC4, 0x80]
    ensures DecodeSpec([0xC4, 0x80]) == Decoded(Ok(Some(0x180 as char)), 2)
  {
    assert Combine2(0xC4, 0x80) == 0x180;
  }

  /** The value of a character of width `w` with its continuation bytes
      masked to their low six bits, as the decoder evidently intends. */
  function MaskedValue(w: nat, s: seq<u8>): nat
    requires 1 <= w <= 4 && |s| >= w
  {
    if w == 1 then s[0] as nat
    else if w == 2 then (s[0] as nat % 32) * 64 + s[1] as nat % 64
    else if w == 3 then (s[0] as nat % 16) * 4096 + (s[1] as nat % 64) * 64 + s[2] as nat % 64
    else (s[0] as nat % 8) * 262144 + (s[1] as nat % 64) * 4096 + (s[2] as nat % 64) * 64 + s[3] as nat % 64
  }

  /** `decode_char` with the continuation bytes masked (`b & 0x3F`). */
  function DecodeIntended(buf: seq<u8>): (d: Decoded)
    ensures d.consumed <= |buf|
  {
    if |buf| == 0 then Decoded(Ok(None), 0)
    else
      var w := Width(buf[0]);
      if w == 0 then Decoded(Err(InvalidUtf8), 1)
      else if |buf| < w then Decoded(Ok(None), 1)
      else
        match CharFrom(MaskedValue(w, buf))
        case Ok(ch) => Decoded(Ok(Some(ch)), w)
        case Err(e) => Decoded(Err(e), w)
  }

  lemma Encode2Decodes(v: int)
    requires 0x80 <= v < 0x800
    ensures Width((0xC0 + v / 64) as u8) == 2
    ensures MaskedValue(2, [(0xC0 + v / 64) as u8, (0x80 + v % 64) as u8]) == v
  {
    var hi, lo := v / 64, v % 64;
    assert 2 <= hi < 32;
    assert (0xC0 + hi) % 32 == hi;
    assert (0x80 + lo) % 64 == lo;
  }

  lemma Encode3Decodes(v: int)
    requires 0x800 <= v < 0x10000
    ensures Width((0xE0 + v / 4096) as u8) == 3
    ensures MaskedValue(3, [(0xE0 + v / 4096) as u8, (0x80 + (v / 64) % 64) as u8, (0x80 + v % 64) as u8]) == v
  {
    var hi, mid, lo := v / 4096, (v / 64) % 64, v % 64;
    assert hi < 16;
    assert (0xE0 + hi) % 16 == hi;
    assert (0x80 + mid) % 64 == mid;
    assert (0x80 + lo) % 64 == lo;
    Split3(v);
  }

  lemma Encode4Decodes(v: int)
    requires 0x10000 <= v <= 0x10FFFF
    ensures Width((0xF0 + v / 262144) as u8) == 4
    ensures MaskedValue(4, [(0xF0 + v / 262144) as u8, (0x80 + (v / 4096) % 64) as u8,
                            (0x80 + (v / 64) % 64) as u8, (0x80 + v % 64) as u8]) == v
  {
    var hi, m1, m2, lo := v / 262144, (v / 4096) % 64, (v / 64) % 64, v % 64;
    assert hi <= 4;
    assert (0xF0 + hi) % 8 == hi;
    assert (0x80 + m1) % 64 == m1;
    assert (0x80 + m2) % 64 == m2;
    assert (0x80 + lo) % 64 == lo;
    Split4(v);
  }

  /** The lead byte of an encoding has the width of the whole encoding, and
      masking its bytes gives back the scalar value. */
  lemma EncodeDecodes(c: char)
    ensures Width(Encode(c)[0]) == |Encode(c)|
    ensures MaskedValue(|Encode(c)|, Encode(c)) == c as int
  {
    var v := c as int;
    if v < 0x80 {
    } else if v < 0x800 {
      Encode2Decodes(v);
    } else if v < 0x10000 {
      Encode3Decodes(v);
    } else {
      Encode4Decodes(v);
    }
  }

  lemma Split3(v: nat)
    ensures v == (v / 4096) * 4096 + ((v / 64) % 64) * 64 + v % 64
  {
    var q := v / 64;
    assert v == q * 64 + v % 64;
    assert q == (q / 64) * 64 + q % 64;
    assert q / 64 == v / 4096;
  }

  lemma Split4(v: nat)
    ensures v == (v / 262144) * 262144 + ((v / 4096) % 64) * 4096 + ((v / 64) % 64) * 64 + v % 64
  {
    var q := v / 64;
    assert v == q * 64 + v % 64;
    Split3(q);
    assert q / 4096 == v / 262144;
    assert (q / 64) == v / 4096;
  }

  /** The intended decoder reads back every character the encoder writes,
      taking exactly its bytes, whatever follows them. */
  lemma DecodeIntendedRoundTrip(c: char, rest: seq<u8>)
    ensures DecodeIntended(Encode(c) + rest) == Decoded(Ok(Some(c)), |Encode(c)|)
  {
    var s := Encode(c);
    var buf := s + rest;
    EncodeDecodes(c);
    assert buf[0] == s[0];
    assert buf[..|s|] == s;
    assert MaskedValue(|s|, buf) == MaskedValue(|s|, s);
    assert CharFrom(c as int) == Ok(c);
  }
}
