/** UTF-8 as defined in section 3 of RFC 3629, over Unicode scalar values
    (Dafny's `char`), and the zero-terminated byte string handed to the
    ONNX Runtime C API as an execution-provider name. */
module Utf8 {
  import opened Wrappers

  newtype byte = b: int | 0 <= b < 0x100

  /** A trailing byte of a multi-byte sequence: bit pattern 10xxxxxx. */
  predicate IsContinuation(b: byte) {
    0x80 <= b < 0xC0
  }

  /** How many bytes one scalar value takes, by the ranges of the table in
      section 3 of RFC 3629. This is what `Encoding.GetByteCount` adds up. */
  function ScalarByteCount(c: char): nat {
    if c as int < 0x80 then 1
    else if c as int < 0x800 then 2
    else if c as int < 0x1_0000 then 3
    else 4
  }

  /** `Encoding.UTF8.GetByteCount(s)`. */
  function ByteCount(s: string): (n: nat)
    ensures |s| <= n <= 4 * |s|
  {
    if |s| == 0 then 0 else ScalarByteCount(s[0]) + ByteCount(s[1..])
  }

  /** A string takes one byte per scalar exactly when it is all ASCII. */
  lemma {:induction false} ByteCountAscii(s: string)
    ensures ByteCount(s) == |s| <==> forall k :: 0 <= k < |s| ==> s[k] as int < 0x80
  {
    if |s| > 0 {
      ByteCountAscii(s[1..]);
      assert forall k :: 1 <= k < |s| ==> s[k] == s[1..][k - 1];
    }
  }

  /** The UTF-8 octet sequence of one scalar value: the value's bits are
      distributed, high bits first, over a lead byte whose prefix gives the
      length and continuation bytes carrying six bits each. */
  function EncodeScalar(c: char): (r: seq<byte>)
    ensures 1 <= |r| <= 4
    ensures (r[0] == 0) <==> (c == '\0')
    ensures forall k :: 1 <= k < |r| ==> IsContinuation(r[k])
  {
    var v := c as int;
    if v < 0x80 then
      [v as byte]
    else if v < 0x800 then
      [(0xC0 + v / 0x40) as byte, (0x80 + v % 0x40) as byte]
    else if v < 0x1_0000 then
      [(0xE0 + v / 0x1000) as byte, (0x80 + v / 0x40 % 0x40) as byte, (0x80 + v % 0x40) as byte]
    else
      [(0xF0 + v / 0x4_0000) as byte, (0x80 + v / 0x1000 % 0x40) as byte,
       (0x80 + v / 0x40 % 0x40) as byte, (0x80 + v % 0x40) as byte]
  }

  /** The UTF-8 encoding of a whole string: its scalars' encodings in order. */
  function Encode(s: string): seq<byte> {
    if |s| == 0 then [] else EncodeScalar(s[0]) + Encode(s[1..])
  }

  /** Reads one scalar value from the front of `b`, returning it with the
      number of bytes it took; `None` for anything RFC 3629 forbids
      (a stray continuation byte, a truncated sequence, an overlong form,
      a surrogate, a value above U+10FFFF). */
  function DecodeScalar(b: seq<byte>): (r: Option<(char, nat)>)
    ensures r.Some? ==> 1 <= r.value.1 <= |b|
  {
    if |b| == 0 then None
    else if b[0] < 0x80 then
      Some(((b[0] as int) as char, 1))
    else if 0xC2 <= b[0] < 0xE0 then
      if |b| < 2 || !IsContinuation(b[1]) then None
      else
        var v := (b[0] as int - 0xC0) * 0x40 + (b[1] as int - 0x80);
        Some((v as char, 2))
    else if 0xE0 <= b[0] < 0xF0 then
      if |b| < 3 || !IsContinuation(b[1]) || !IsContinuation(b[2]) then None
      else
        var v := (b[0] as int - 0xE0) * 0x1000 + (b[1] as int - 0x80) * 0x40 + (b[2] as int - 0x80);
        if v < 0x800 || 0xD800 <= v < 0xE000 then None else Some((v as char, 3))
    else if 0xF0 <= b[0] < 0xF5 then
      if |b| < 4 || !IsContinuation(b[1]) || !IsContinuation(b[2]) || !IsContinuation(b[3]) then None
      else
        var v := (b[0] as int - 0xF0) * 0x4_0000 + (b[1] as int - 0x80) * 0x1000
                 + (b[2] as int - 0x80) * 0x40 + (b[3] as int - 0x80);
        if v < 0x1_0000 || 0x10_FFFF < v then None else Some((v as char, 4))
    else
      None
  }

  /** Decodes a whole byte string, or `None` if any part is not UTF-8. */
  function Decode(b: seq<byte>): Option<string>
    decreases |b|
  {
    if |b| == 0 then Some([])
    else
      match DecodeScalar(b)
      case None => None
      case Some((c, n)) =>
        match Decode(b[n..])
        case None => None
        case Some(t) => Some([c] + t)
  }

  /** What `StringToZeroTerminatedUtf8` must return: the encoding of `s`
      followed by one 0 byte. */
  function ZeroTerminated(s: string): seq<byte> {
    Encode(s) + [0]
  }

  /** The byte count agrees with the length of the encoding, which is why
      the array allocated from `GetByteCount` is filled exactly. */
  lemma {:induction false} EncodeLength(s: string)
    ensures |Encode(s)| == ByteCount(s)
  {
    if |s| > 0 {
      EncodeLength(s[1..]);
    }
  }

  /** Encoding distributes over concatenation. */
  lemma {:induction false} EncodeAppend(a: string, b: string)
    ensures Encode(a + b) == Encode(a) + Encode(b)
  {
    if |a| == 0 {
      assert a + b == b;
    } else {
      assert (a + b)[1..] == a[1..] + b;
      EncodeAppend(a[1..], b);
    }
  }

  /** Byte count distributes over concatenation. */
  lemma {:induction false} ByteCountAppend(a: string, b: string)
    ensures ByteCount(a + b) == ByteCount(a) + ByteCount(b)
  {
    if |a| == 0 {
      assert a + b == b;
    } else {
      assert (a + b)[1..] == a[1..] + b;
      ByteCountAppend(a[1..], b);
    }
  }

  /** A non-negative value is the sum of its six-bit groups. */
  lemma SixBitCompose(v: int)
    requires 0 <= v
    ensures v == (v / 0x4_0000) * 0x4_0000 + (v / 0x1000 % 0x40) * 0x1000 + (v / 0x40 % 0x40) * 0x40 + v % 0x40
  {
    var q1 := v / 0x40;
    var q2 := q1 / 0x40;
    var q3 := q2 / 0x40;
    assert v == q1 * 0x40 + v % 0x40;
    assert q1 == q2 * 0x40 + q1 % 0x40;
    assert q2 == q3 * 0x40 + q2 % 0x40;
    assert q2 == v / 0x1000;
    assert q3 == v / 0x4_0000;
  }

  /** Reading a scalar's encoding back yields the scalar and its length,
      whatever follows it. */
  lemma DecodeScalarOfEncode(c: char, rest: seq<byte>)
    ensures DecodeScalar(EncodeScalar(c) + rest) == Some((c, |EncodeScalar(c)|))
  {
    var v := c as int;
    if v < 0x80 {
      assert (EncodeScalar(c) + rest)[0] == v as byte;
    } else if v < 0x800 {
      DecodeTwoOfEncode(c, rest);
    } else if v < 0x1_0000 {
      DecodeThreeOfEncode(c, rest);
    } else {
      DecodeFourOfEncode(c, rest);
    }
  }

  /** The two-byte case of `DecodeScalarOfEncode`. */
  lemma DecodeTwoOfEncode(c: char, rest: seq<byte>)
    requires 0x80 <= c as int < 0x800
    ensures DecodeScalar(EncodeScalar(c) + rest) == Some((c, 2))
  {
    var v := c as int;
    var b := EncodeScalar(c) + rest;
    assert b[0] == (0xC0 + v / 0x40) as byte && b[1] == (0x80 + v % 0x40) as byte;
    assert (b[0] as int - 0xC0) * 0x40 + (b[1] as int - 0x80) == v;
  }

  /** The three-byte case of `DecodeScalarOfEncode`. */
  lemma DecodeThreeOfEncode(c: char, rest: seq<byte>)
    requires 0x800 <= c as int < 0x1_0000
    ensures DecodeScalar(EncodeScalar(c) + rest) == Some((c, 3))
  {
    var v := c as int;
    var b := EncodeScalar(c) + rest;
    assert b[0] == (0xE0 + v / 0x1000) as byte && b[1] == (0x80 + v / 0x40 % 0x40) as byte
      && b[2] == (0x80 + v % 0x40) as byte;
    assert (b[0] as int - 0xE0) * 0x1000 + (b[1] as int - 0x80) * 0x40 + (b[2] as int - 0x80) == v by {
      SixBitCompose(v);
      assert v / 0x4_0000 == 0;
    }
  }

  /** The four-byte case of `DecodeScalarOfEncode`. */
  lemma DecodeFourOfEncode(c: char, rest: seq<byte>)
    requires 0x1_0000 <= c as int
    ensures DecodeScalar(EncodeScalar(c) + rest) == Some((c, 4))
  {
    var v := c as int;
    var b := EncodeScalar(c) + rest;
    assert b[0] == (0xF0 + v / 0x4_0000) as byte && b[1] == (0x80 + v / 0x1000 % 0x40) as byte
      && b[2] == (0x80 + v / 0x40 % 0x40) as byte && b[3] == (0x80 + v % 0x40) as byte;
    assert (b[0] as int - 0xF0) * 0x4_0000 + (b[1] as int - 0x80) * 0x1000
           + (b[2] as int - 0x80) * 0x40 + (b[3] as int - 0x80) == v by {
      SixBitCompose(v);
    }
  }

  /** Round trip: decoding the encoding of a string gives the string back. */
  lemma {:induction false} DecodeEncode(s: string)
    ensures Decode(Encode(s)) == Some(s)
    decreases |s|
  {
    if |s| > 0 {
      DecodeEncode(s[1..]);
      DecodeAfterScalar(s[0], Encode(s[1..]), s[1..]);
      assert [s[0]] + s[1..] == s;
    }
  }

  /** A scalar's encoding in front of bytes that decode to `t` decodes to
      the scalar followed by `t`. */
  lemma DecodeAfterScalar(c: char, rest: seq<byte>, t: string)
    requires Decode(rest) == Some(t)
    ensures Decode(EncodeScalar(c) + rest) == Some([c] + t)
  {
    var head := EncodeScalar(c);
    DecodeScalarOfEncode(c, rest);
    assert (head + rest)[|head|..] == rest;
  }

  /** Splitting a value built from six-bit groups recovers the groups. */
  lemma SixBitGroups(hi: int, g1: int, g2: int, g3: int)
    requires 0 <= hi && 0 <= g1 < 0x40 && 0 <= g2 < 0x40 && 0 <= g3 < 0x40
    ensures var v := hi * 0x4_0000 + g1 * 0x1000 + g2 * 0x40 + g3;
      v / 0x4_0000 == hi && v / 0x1000 % 0x40 == g1 && v / 0x40 % 0x40 == g2 && v % 0x40 == g3
  {
    var v := hi * 0x4_0000 + g1 * 0x1000 + g2 * 0x40 + g3;
    var q1 := hi * 0x1000 + g1 * 0x40 + g2;
    assert v == q1 * 0x40 + g3;
    assert v / 0x40 == q1 && v % 0x40 == g3;
    var q2 := hi * 0x40 + g1;
    assert q1 == q2 * 0x40 + g2;
    assert q1 % 0x40 == g2 && q1 / 0x40 == q2;
    assert v == q2 * 0x1000 + (g2 * 0x40 + g3);
    assert v / 0x1000 == q2;
    assert q2 % 0x40 == g1;
    assert v == hi * 0x4_0000 + (g1 * 0x1000 + g2 * 0x40 + g3);
  }

  /** Re-encoding a two-byte sequence the decoder accepts. */
  lemma ReencodeTwo(b0: byte, b1: byte)
    requires 0xC2 <= b0 < 0xE0 && IsContinuation(b1)
    ensures var v := (b0 as int - 0xC0) * 0x40 + (b1 as int - 0x80);
      0x80 <= v < 0x800 && EncodeScalar(v as char) == [b0, b1]
  {
    SixBitGroups(0, 0, b0 as int - 0xC0, b1 as int - 0x80);
  }

  /** Re-encoding a three-byte sequence the decoder accepts. */
  lemma ReencodeThree(b0: byte, b1: byte, b2: byte)
    requires 0xE0 <= b0 < 0xF0 && IsContinuation(b1) && IsContinuation(b2)
    ensures var v := (b0 as int - 0xE0) * 0x1000 + (b1 as int - 0x80) * 0x40 + (b2 as int - 0x80);
      0x800 <= v < 0x1_0000 && !(0xD800 <= v < 0xE000) ==> EncodeScalar(v as char) == [b0, b1, b2]
  {
    SixBitGroups(0, b0 as int - 0xE0, b1 as int - 0x80, b2 as int - 0x80);
  }

  /** Re-encoding a four-byte sequence the decoder accepts. */
  lemma ReencodeFour(b0: byte, b1: byte, b2: byte, b3: byte)
    requires 0xF0 <= b0 < 0xF5 && IsContinuation(b1) && IsContinuation(b2) && IsContinuation(b3)
    ensures var v := (b0 as int - 0xF0) * 0x4_0000 + (b1 as int - 0x80) * 0x1000
                     + (b2 as int - 0x80) * 0x40 + (b3 as int - 0x80);
      0x1_0000 <= v <= 0x10_FFFF ==> EncodeScalar(v as char) == [b0, b1, b2, b3]
  {
    SixBitGroups(b0 as int - 0xF0, b1 as int - 0x80, b2 as int - 0x80, b3 as int - 0x80);
  }

  /** A scalar the decoder accepts is encoded exactly as the bytes it was
      read from: the decoder admits no overlong or alternative forms. */
  lemma EncodeOfDecodeScalar(b: seq<byte>)
    requires DecodeScalar(b).Some?
    ensures EncodeScalar(DecodeScalar(b).value.0) == b[..DecodeScalar(b).value.1]
  {
    if b[0] < 0x80 {
    } else if b[0] < 0xE0 {
      ReencodeTwo(b[0], b[1]);
      assert b[..2] == [b[0], b[1]];
    } else if b[0] < 0xF0 {
      ReencodeThree(b[0], b[1], b[2]);
      assert b[..3] == [b[0], b[1], b[2]];
    } else {
      ReencodeFour(b[0], b[1], b[2], b[3]);
      assert b[..4] == [b[0], b[1], b[2], b[3]];
    }
  }

  /** The converse round trip: whatever decodes is the encoding of what it
      decodes to, so `Encode` is a bijection onto the decodable byte strings. */
  lemma {:induction false} EncodeDecode(b: seq<byte>)
    requires Decode(b).Some?
    ensures Encode(Decode(b).value) == b
    decreases |b|
  {
    if |b| > 0 {
      var c, n, tail := DecodeStep(b);
      assert Encode(tail) == b[n..] by {
        EncodeDecode(b[n..]);
      }
      assert Encode([c] + tail) == EncodeScalar(c) + Encode(tail) by {
        EncodeCons(c, tail);
      }
      assert b == b[..n] + b[n..];
    } else {
      assert Decode(b).value == [];
    }
  }

  /** One step of `Decode` on a byte string that decodes: the first `n`
      bytes are the encoding of `c`, and the rest decodes to `tail`. */
  lemma DecodeStep(b: seq<byte>) returns (c: char, n: nat, tail: string)
    requires |b| > 0 && Decode(b).Some?
    ensures 1 <= n <= |b| && EncodeScalar(c) == b[..n]
    ensures Decode(b[n..]) == Some(tail) && Decode(b).value == [c] + tail
  {
    c := DecodeScalar(b).value.0;
    n := DecodeScalar(b).value.1;
    tail := Decode(b[n..]).value;
    EncodeOfDecodeScalar(b);
  }

  /** Encoding a string that starts with `c`. */
  lemma EncodeCons(c: char, tail: string)
    ensures Encode([c] + tail) == EncodeScalar(c) + Encode(tail)
  {
    assert ([c] + tail)[1..] == tail;
  }

  /** A 0 byte occurs in the encoding exactly where the string holds U+0000:
      multi-byte sequences consist of bytes of 0x80 and above. */
  lemma {:induction false} ZeroByteIffNul(s: string)
    ensures (0 in Encode(s)) <==> ('\0' in s)
  {
    if |s| > 0 {
      var head := EncodeScalar(s[0]);
      ZeroByteIffNul(s[1..]);
      assert s == [s[0]] + s[1..];
      assert 0 in head <==> s[0] == '\0' by {
        if 0 in head {
          var k :| 0 <= k < |head| && head[k] == 0;
          assert k == 0;
        }
      }
    }
  }

  /** The provider name the DirectML extension passes to ONNX Runtime. */
  lemma ProviderNameBytes()
    ensures ZeroTerminated("DML") == [0x44, 0x4D, 0x4C, 0x00]
  {
    assert Encode("DML") == [0x44, 0x4D, 0x4C] by {
      assert "DML"[1..] == "ML";
      assert "ML"[1..] == "L";
      assert "L"[1..] == "";
    }
  }

  /** Copies `chunk` into `buffer` at `offset`, leaving every other byte
      as it was. */
  method WriteAt(buffer: array<byte>, offset: nat, chunk: seq<byte>)
    requires offset + |chunk| <= buffer.Length
    modifies buffer
    ensures buffer[..offset + |chunk|] == old(buffer[..offset]) + chunk
    ensures buffer[offset + |chunk|..] == old(buffer[offset + |chunk|..])
  {
    var k := 0;
    while k < |chunk|
      invariant 0 <= k <= |chunk|
      invariant buffer[..offset + k] == old(buffer[..offset]) + chunk[..k]
      invariant buffer[offset + |chunk|..] == old(buffer[offset + |chunk|..])
    {
      buffer[offset + k] := chunk[k];
      k := k + 1;
    }
  }

  /** `Encoding.UTF8.GetBytes(s, 0, s.Length, buffer, 0)`: writes the
      encoding of `s` at the start of `buffer`, touches nothing after it,
      and returns how many bytes it wrote. */
  method GetBytes(s: string, buffer: array<byte>) returns (written: nat)
    requires ByteCount(s) <= buffer.Length
    modifies buffer
    ensures written == ByteCount(s)
    ensures buffer[..written] == Encode(s)
    ensures buffer[written..] == old(buffer[written..])
  {
    var bytes := Encode(s);
    EncodeLength(s);
    WriteAt(buffer, 0, bytes);
    written := |bytes|;
  }

  /** Counts the bytes, allocates one more, writes the encoding at the
      start of the array, then writes the terminating 0 into the last slot. */
  method StringToZeroTerminatedUtf8(s: string) returns (r: seq<byte>)
    ensures |r| == ByteCount(s) + 1
    ensures r[|r| - 1] == 0
    ensures r[..|r| - 1] == Encode(s)
    ensures r == ZeroTerminated(s)
  {
    var arraySize := ByteCount(s);
    var utf8Bytes := new byte[arraySize + 1];
    var bytesWritten := GetBytes(s, utf8Bytes);
    assert arraySize == bytesWritten;
    utf8Bytes[utf8Bytes.Length - 1] := 0;
    r := utf8Bytes[..];
    assert r[..|r| - 1] == Encode(s);
  }
}
