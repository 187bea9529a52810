/**
 UTF-8 as sections 3 and 4 of RFC 3629 define it. A `String` is its Unicode scalar values; `Encode` gives
 its bytes, and `Decode` is the validating conversion back.
 */
module Utf8 {
  import opened Base

  type Scalar = x: int | 0 <= x < 0xD800 || 0xE000 <= x <= 0x10FFFF

  type String = seq<Scalar>

  function EncodeScalar(c: Scalar): (b: seq<u8>)
    ensures 1 <= |b| <= 4
  {
    if c < 0x80 then [c]
    else if c < 0x800 then [0xC0 + c / 0x40, Tail(c % 0x40)]
    else if c < 0x10000 then [0xE0 + c / 0x1000, Tail(c / 0x40 % 0x40), Tail(c % 0x40)]
    else [0xF0 + c / 0x40000, Tail(c / 0x1000 % 0x40), Tail(c / 0x40 % 0x40), Tail(c % 0x40)]
  }

  function Encode(s: String): seq<u8> {
    if s == [] then [] else EncodeScalar(s[0]) + Encode(s[1..])
  }

  function Tail(x: int): u8
    requires 0 <= x < 0x40
  {
    0x80 + x
  }

  function Payload(b: u8, marker: int): int {
    var x: int := b;
    x - marker
  }

  predicate IsTail(b: u8) {
    0x80 <= b <= 0xBF
  }

  /** The scalar whose encoding starts `b` and its length, by the ranges of RFC 3629's syntax. */
  function DecodeFirst(b: seq<u8>): (r: Option<(Scalar, nat)>)
    ensures r.Some? ==> 1 <= r.value.1 <= |b|
  {
    if b == [] then None
    else if b[0] < 0x80 then Some((b[0], 1))
    else if 0xC2 <= b[0] <= 0xDF && |b| >= 2 && IsTail(b[1]) then
      Some((Payload(b[0], 0xC0) * 0x40 + Payload(b[1], 0x80), 2))
    else if 0xE0 <= b[0] <= 0xEF && |b| >= 3 && IsTail(b[1]) && IsTail(b[2])
            && (b[0] == 0xE0 ==> b[1] >= 0xA0) && (b[0] == 0xED ==> b[1] <= 0x9F) then
      Some((Payload(b[0], 0xE0) * 0x1000 + Payload(b[1], 0x80) * 0x40 + Payload(b[2], 0x80), 3))
    else if 0xF0 <= b[0] <= 0xF4 && |b| >= 4 && IsTail(b[1]) && IsTail(b[2]) && IsTail(b[3])
            && (b[0] == 0xF0 ==> b[1] >= 0x90) && (b[0] == 0xF4 ==> b[1] <= 0x8F) then
      Some((Payload(b[0], 0xF0) * 0x40000 + Payload(b[1], 0x80) * 0x1000 + Payload(b[2], 0x80) * 0x40
            + Payload(b[3], 0x80), 4))
    else None
  }

  /** `String::from_utf8`: the scalars, or nothing if the bytes are not valid UTF-8. */
  function Decode(b: seq<u8>): Option<String>
    decreases |b|
  {
    if b == [] then Some([])
    else
      var first := DecodeFirst(b);
      if first.None? then None
      else
        var rest := Decode(b[first.value.1..]);
        if rest.None? then None else Some([first.value.0] + rest.value)
  }

  /** Splitting a scalar into six-bit groups and joining them again. */
  lemma SixBitGroups(c: int)
    requires 0 <= c < 0x200000
    ensures c == c / 0x40 * 0x40 + c % 0x40
    ensures c == c / 0x1000 * 0x1000 + c / 0x40 % 0x40 * 0x40 + c % 0x40
    ensures c == c / 0x40000 * 0x40000 + c / 0x1000 % 0x40 * 0x1000 + c / 0x40 % 0x40 * 0x40 + c % 0x40
  {
    assert c / 0x40 / 0x40 == c / 0x1000 && c / 0x1000 / 0x40 == c / 0x40000;
  }

  lemma JoinedPair(y: int, z: int)
    requires 0 <= z < 0x40
    ensures (y * 0x40 + z) / 0x40 == y && (y * 0x40 + z) % 0x40 == z
  {
  }

  lemma JoinedGroups(w: int, x: int, y: int, z: int)
    requires 0 <= x < 0x40 && 0 <= y < 0x40 && 0 <= z < 0x40
    ensures var c := w * 0x40000 + x * 0x1000 + y * 0x40 + z;
            c / 0x40000 == w && c / 0x1000 % 0x40 == x && c / 0x40 % 0x40 == y && c % 0x40 == z
  {
    var c := w * 0x40000 + x * 0x1000 + y * 0x40 + z;
    JoinedPair((w * 0x40 + x) * 0x40 + y, z);
    JoinedPair(w * 0x40 + x, y);
    JoinedPair(w, x);
    assert c / 0x1000 == c / 0x40 / 0x40 && c / 0x40000 == c / 0x1000 / 0x40;
  }

  lemma DecodeFirstOfEncoded(c: Scalar, rest: seq<u8>)
    ensures DecodeFirst(EncodeScalar(c) + rest) == Some((c, |EncodeScalar(c)|))
  {
    SixBitGroups(c);
    var e := EncodeScalar(c);
    assert forall i :: 0 <= i < |e| ==> (e + rest)[i] == e[i];
  }

  lemma EncodeOfDecodedFirst(b: seq<u8>)
    requires DecodeFirst(b).Some?
    ensures EncodeScalar(DecodeFirst(b).value.0) == b[..DecodeFirst(b).value.1]
  {
    var n := DecodeFirst(b).value.1;
    if n == 2 {
      JoinedPair(Payload(b[0], 0xC0), Payload(b[1], 0x80));
    } else if n == 3 {
      JoinedPair(Payload(b[0], 0xE0) * 0x40 + Payload(b[1], 0x80), Payload(b[2], 0x80));
      JoinedPair(Payload(b[0], 0xE0), Payload(b[1], 0x80));
      var c := DecodeFirst(b).value.0;
      assert c / 0x1000 == c / 0x40 / 0x40;
    } else if n == 4 {
      JoinedGroups(Payload(b[0], 0xF0), Payload(b[1], 0x80), Payload(b[2], 0x80), Payload(b[3], 0x80));
    }
  }

  lemma {:induction false} DecodeEncode(s: String)
    ensures Decode(Encode(s)) == Some(s)
  {
    if s != [] {
      DecodeFirstOfEncoded(s[0], Encode(s[1..]));
      assert Encode(s)[|EncodeScalar(s[0])|..] == Encode(s[1..]);
      DecodeEncode(s[1..]);
      assert s == [s[0]] + s[1..];
    }
  }

  lemma {:induction false} EncodeDecode(b: seq<u8>)
    requires Decode(b).Some?
    ensures Encode(Decode(b).value) == b
    decreases |b|
  {
    if b != [] {
      var n := DecodeFirst(b).value.1;
      EncodeOfDecodedFirst(b);
      EncodeDecode(b[n..]);
      assert b == b[..n] + b[n..];
      var s := Decode(b).value;
      assert s[1..] == Decode(b[n..]).value;
    }
  }

  lemma {:induction false} EncodeConcat(a: String, b: String)
    ensures Encode(a + b) == Encode(a) + Encode(b)
  {
    if a == [] {
      assert a + b == b;
    } else {
      assert (a + b)[1..] == a[1..] + b;
      EncodeConcat(a[1..], b);
    }
  }

  /** The bytes that are valid UTF-8 are exactly the encodings, and each encodes one string. */
  lemma ValidExactly(b: seq<u8>, s: String)
    ensures Decode(b) == Some(s) <==> Encode(s) == b
  {
    if Decode(b) == Some(s) {
      EncodeDecode(b);
    }
    DecodeEncode(s);
  }

  /** `b` is a continuation byte that carries the six bits `x`. */
  predicate Carries(b: u8, x: int) {
    b / 0x40 == 2 && b % 0x40 == x
  }

  /** The bits of an encoded scalar, by the table in section 3 of RFC 3629: the leading bits of the first
      byte tell the length, which is the shortest that fits, and the remaining bits of all the bytes, most
      significant first, are the scalar. */
  lemma EncodedBits(c: Scalar)
    ensures var b := EncodeScalar(c);
            if c < 0x80 then b == [c]
            else if c < 0x800 then
              |b| == 2 && b[0] / 0x20 == 6
              && exists y: nat :: Carries(b[1], y) && c == b[0] % 0x20 * 0x40 + y
            else if c < 0x1_0000 then
              |b| == 3 && b[0] / 0x10 == 14
              && exists y: nat, z: nat ::
                   Carries(b[1], y) && Carries(b[2], z) && c == b[0] % 0x10 * 0x1000 + y * 0x40 + z
            else
              |b| == 4 && b[0] / 0x08 == 30
              && exists x: nat, y: nat, z: nat ::
                   Carries(b[1], x) && Carries(b[2], y) && Carries(b[3], z)
                   && c == b[0] % 0x08 * 0x4_0000 + x * 0x1000 + y * 0x40 + z
  {
    SixBitGroups(c);
    var b := EncodeScalar(c);
    if 0x80 <= c < 0x800 {
      assert Carries(b[1], c % 0x40);
    } else if 0x800 <= c < 0x1_0000 {
      assert Carries(b[1], c / 0x40 % 0x40) && Carries(b[2], c % 0x40);
    } else if 0x1_0000 <= c {
      assert Carries(b[1], c / 0x1000 % 0x40) && Carries(b[2], c / 0x40 % 0x40) && Carries(b[3], c % 0x40);
    }
  }
}
