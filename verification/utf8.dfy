/** UTF-8 as defined in section 3 of RFC 3629, over Unicode scalar values
    (Dafny's char). This is what String.getBytes(StandardCharsets.UTF_8)
    produces for a string without unpaired surrogates. */
module Utf8 {
  import opened Lang
  import opened Buffer

  /** A continuation byte 10xxxxxx. */
  predicate IsCont(b: Byte) {
    0x80 <= b < 0xC0
  }

  /** The one to four bytes of one scalar value. */
  function EncodeChar(c: char): (r: seq<Byte>)
    ensures 1 <= |r| <= 4
  {
    var cp := c as int;
    if cp < 0x80 then [cp]
    else if cp < 0x800 then [0xC0 + cp / 64, 0x80 + cp % 64]
    else if cp < 0x1_0000 then [0xE0 + cp / 4096, 0x80 + (cp / 64) % 64, 0x80 + cp % 64]
    else [0xF0 + cp / 262144, 0x80 + (cp / 4096) % 64, 0x80 + (cp / 64) % 64, 0x80 + cp % 64]
  }

  function Encode(s: string): (r: seq<Byte>)
    ensures |r| >= |s|
  {
    if s == [] then [] else EncodeChar(s[0]) + Encode(s[1..])
  }

  /** Decodes the scalar value at the start of bs and the number of bytes it
      takes, rejecting every sequence RFC 3629 calls ill-formed: stray
      continuation bytes, overlong forms, surrogates, values above U+10FFFF
      and truncated sequences. */
  function DecodeChar(bs: seq<Byte>): (r: Option<(char, nat)>)
    ensures r.Some? ==> 1 <= r.value.1 <= |bs| && r.value.1 <= 4
  {
    if |bs| == 0 then None
    else
      var b0: int := bs[0];
      if b0 < 0x80 then Some((b0 as char, 1))
      else if 0xC2 <= b0 < 0xE0 then
        if |bs| < 2 || !IsCont(bs[1]) then None
        else Some((((b0 - 0xC0) * 64 + (bs[1] as int - 0x80)) as char, 2))
      else if 0xE0 <= b0 < 0xF0 then
        if |bs| < 3 || !IsCont(bs[1]) || !IsCont(bs[2]) then None
        else
          var cp := (b0 - 0xE0) * 4096 + (bs[1] as int - 0x80) * 64 + (bs[2] as int - 0x80);
          if cp < 0x800 || 0xD800 <= cp < 0xE000 then None else Some((cp as char, 3))
      else if 0xF0 <= b0 < 0xF5 then
        if |bs| < 4 || !IsCont(bs[1]) || !IsCont(bs[2]) || !IsCont(bs[3]) then None
        else
          var cp := (b0 - 0xF0) * 262144 + (bs[1] as int - 0x80) * 4096 + (bs[2] as int - 0x80) * 64 + (bs[3] as int - 0x80);
          if cp < 0x1_0000 || cp >= 0x11_0000 then None else Some((cp as char, 4))
      else None
  }

  /** The string whose UTF-8 form is exactly bs, if there is one. */
  function Decode(bs: seq<Byte>): Option<string>
    decreases |bs|
  {
    if bs == [] then Some([])
    else match DecodeChar(bs)
      case None => None
      case Some((c, n)) =>
        match Decode(bs[n..])
        case None => None
        case Some(s) => Some([c] + s)
  }

  /** The decoder reads back the one scalar value the encoder wrote, and
      only its bytes. */
  lemma DecodeEncodeChar(c: char, rest: seq<Byte>)
    ensures DecodeChar(EncodeChar(c) + rest) == Some((c, |EncodeChar(c)|))
  {
    var cp := c as int;
    if cp < 0x80 {
    } else if cp < 0x800 {
      DecodeEncodeChar2(c, rest);
    } else if cp < 0x1_0000 {
      DecodeEncodeChar3(c, rest);
    } else {
      DecodeEncodeChar4(c, rest);
    }
  }

  lemma DecodeEncodeChar2(c: char, rest: seq<Byte>)
    requires 0x80 <= c as int < 0x800
    ensures DecodeChar(EncodeChar(c) + rest) == Some((c, 2))
  {
    var cp := c as int;
    var bs := EncodeChar(c) + rest;
    assert bs[0] == 0xC0 + cp / 64 && bs[1] == 0x80 + cp % 64;
  }

  lemma DecodeEncodeChar3(c: char, rest: seq<Byte>)
    requires 0x800 <= c as int < 0x1_0000
    ensures DecodeChar(EncodeChar(c) + rest) == Some((c, 3))
  {
    var cp := c as int;
    var bs := EncodeChar(c) + rest;
    Split64(cp);
    Split64(cp / 64);
    assert bs[0] == 0xE0 + cp / 4096 && bs[1] == 0x80 + (cp / 64) % 64 && bs[2] == 0x80 + cp % 64;
  }

  lemma DecodeEncodeChar4(c: char, rest: seq<Byte>)
    requires 0x1_0000 <= c as int
    ensures DecodeChar(EncodeChar(c) + rest) == Some((c, 4))
  {
    var cp := c as int;
    var bs := EncodeChar(c) + rest;
    Split64(cp);
    Split64(cp / 64);
    Split64(cp / 4096);
    assert bs[0] == 0xF0 + cp / 262144 && bs[1] == 0x80 + (cp / 4096) % 64;
    assert bs[2] == 0x80 + (cp / 64) % 64 && bs[3] == 0x80 + cp % 64;
  }

  /** One base-64 digit split off: n is 64 times its quotient plus its
      remainder, and dividing the quotient again is dividing n by 4096. */
  lemma Split64(n: int)
    requires n >= 0
    ensures n == (n / 64) * 64 + n % 64
    ensures (n / 64) / 64 == n / 4096 && (n / 4096) / 64 == n / 262144
  {
  }

  /** Division by 64 recovers the quotient and remainder it was built from. */
  lemma DivMod64(q: int, r: int)
    requires 0 <= r < 64
    ensures (q * 64 + r) / 64 == q && (q * 64 + r) % 64 == r
  {
  }

  lemma DivMod4096(q: int, r: int)
    requires 0 <= r < 4096
    ensures (q * 4096 + r) / 4096 == q
  {
  }

  lemma DivMod262144(q: int, r: int)
    requires 0 <= r < 262144
    ensures (q * 262144 + r) / 262144 == q
  {
  }

  /** Every scalar value the decoder accepts is re-encoded to the very bytes
      it was read from: the decoder accepts exactly the encoder's image. */
  lemma EncodeDecodeChar(bs: seq<Byte>)
    requires DecodeChar(bs).Some?
    ensures EncodeChar(DecodeChar(bs).value.0) == bs[..DecodeChar(bs).value.1]
  {
    if bs[0] < 0x80 {
    } else if bs[0] < 0xE0 {
      EncodeDecodeChar2(bs);
    } else if bs[0] < 0xF0 {
      EncodeDecodeChar3(bs);
    } else {
      EncodeDecodeChar4(bs);
    }
  }

  lemma EncodeDecodeChar2(bs: seq<Byte>)
    requires DecodeChar(bs).Some? && 0x80 <= bs[0] < 0xE0
    ensures EncodeChar(DecodeChar(bs).value.0) == bs[..2]
  {
    DivMod64(bs[0] as int - 0xC0, bs[1] as int - 0x80);
  }

  lemma EncodeDecodeChar3(bs: seq<Byte>)
    requires DecodeChar(bs).Some? && 0xE0 <= bs[0] < 0xF0
    ensures EncodeChar(DecodeChar(bs).value.0) == bs[..3]
  {
    var x, y, z := bs[0] as int - 0xE0, bs[1] as int - 0x80, bs[2] as int - 0x80;
    var cp := x * 4096 + y * 64 + z;
    assert cp == (x * 64 + y) * 64 + z;
    DivMod64(x * 64 + y, z);
    DivMod64(x, y);
    assert cp == x * 4096 + (y * 64 + z);
    DivMod4096(x, y * 64 + z);
  }

  lemma EncodeDecodeChar4(bs: seq<Byte>)
    requires DecodeChar(bs).Some? && 0xF0 <= bs[0]
    ensures EncodeChar(DecodeChar(bs).value.0) == bs[..4]
  {
    var w, x, y, z := bs[0] as int - 0xF0, bs[1] as int - 0x80, bs[2] as int - 0x80, bs[3] as int - 0x80;
    var cp := w * 262144 + x * 4096 + y * 64 + z;
    assert cp == (w * 4096 + x * 64 + y) * 64 + z;
    DivMod64(w * 4096 + x * 64 + y, z);
    assert w * 4096 + x * 64 + y == (w * 64 + x) * 64 + y;
    DivMod64(w * 64 + x, y);
    assert cp == (w * 64 + x) * 4096 + (y * 64 + z);
    DivMod4096(w * 64 + x, y * 64 + z);
    DivMod64(w, x);
    assert cp == w * 262144 + (x * 4096 + y * 64 + z);
    DivMod262144(w, x * 4096 + y * 64 + z);
  }

  lemma {:induction false} DecodeEncode(s: string)
    ensures Decode(Encode(s)) == Some(s)
  {
    if s != [] {
      var e := EncodeChar(s[0]);
      DecodeEncodeChar(s[0], Encode(s[1..]));
      assert Encode(s)[|e|..] == Encode(s[1..]);
      DecodeEncode(s[1..]);
      assert [s[0]] + s[1..] == s;
    }
  }

  /** A successful decode of a non-empty input is its first scalar value
      followed by the decode of what comes after it. */
  lemma DecodeStep(bs: seq<Byte>)
    requires bs != [] && Decode(bs).Some?
    ensures DecodeChar(bs).Some? && Decode(bs[DecodeChar(bs).value.1..]).Some?
    ensures Decode(bs).value == [DecodeChar(bs).value.0] + Decode(bs[DecodeChar(bs).value.1..]).value
  {
  }

  lemma {:induction false} EncodeDecode(bs: seq<Byte>)
    requires Decode(bs).Some?
    ensures Encode(Decode(bs).value) == bs
    decreases |bs|
  {
    if bs != [] {
      DecodeStep(bs);
      var n := DecodeChar(bs).value.1;
      EncodeDecodeChar(bs);
      EncodeDecode(bs[n..]);
      assert bs == bs[..n] + bs[n..];
    }
  }
}
